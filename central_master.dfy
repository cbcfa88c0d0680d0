/**
 * central-master/R6/convert_master.php: each medical central master's raw file is turned,
 * line by line, into a normalized CSV file. The schema of the master names the output
 * columns (its properties, in order) and the mapping file says which raw column feeds each
 * of them. Every output field is quoted, with inner quotes doubled, as in section 2 of
 * RFC 4180 (rules 5 to 7), and every output line ends in LF. Reading files, Shift_JIS
 * decoding, json_decode, str_getcsv and base64_encode are not modelled: the schema's
 * property names, the mapping, the raw file's lines, the CSV row parser and the encoder of
 * the "raw_record" column are parameters.
 */
module CentralMaster {
  import opened Wrappers
  import opened PhpStrings
  import KeyedWrites

  // ===========================================================================
  // The $masters configuration
  // ===========================================================================

  /** A master: its key (which names its schema and its output file) and its raw file. */
  datatype Master = Master(key: string, srcFile: string)

  const Masters: seq<Master> := [
    Master("s-medical-acts", "s-medical-acts.csv"),
    Master("y-drugs", "y-drugs.csv"),
    Master("t-specific-materials", "t-specific-materials.csv"),
    Master("b-diseases", "b-diseases.csv"),
    Master("z-modifiers", "z-modifiers.csv"),
    Master("c-comments", "c-comments.csv"),
    Master("k-byotou", "k-byotou.csv")
  ]

  /** The output file of a master, under normalized/. */
  function OutPath(key: string): string {
    key + ".csv"
  }

  /** `substr($srcFile, -4) === '.csv'`: a name shorter than four characters is returned
      whole by substr and so never matches. */
  predicate IsCsvSource(srcFile: string) {
    |srcFile| >= 4 && srcFile[|srcFile| - 4..] == ".csv"
  }

  // ===========================================================================
  // Quoting (section 2 of RFC 4180, rules 5 to 7)
  // ===========================================================================

  /** str_replace('"', '""', $v) */
  function DoubleQuotes(v: string): (r: string)
    ensures |r| >= |v|
  {
    if v == [] then []
    else (if v[0] == '"' then "\"\"" else [v[0]]) + DoubleQuotes(v[1..])
  }

  /** '"' . str_replace('"', '""', $v) . '"' */
  function Quote(v: string): string {
    "\"" + DoubleQuotes(v) + "\""
  }

  /** The body of a quoted field: every quote in it is one of a pair of adjacent quotes. */
  predicate QuotesPaired(b: string)
    decreases |b|
  {
    b == [] ||
    (b[0] != '"' && QuotesPaired(b[1..])) ||
    (|b| >= 2 && b[0] == '"' && b[1] == '"' && QuotesPaired(b[2..]))
  }

  /** Doubling leaves no lone quote in the body. */
  lemma {:induction false} DoubleQuotesPaired(v: string)
    ensures QuotesPaired(DoubleQuotes(v))
    decreases |v|
  {
    if v != [] {
      DoubleQuotesPaired(v[1..]);
      var b := DoubleQuotes(v);
      if v[0] == '"' {
        assert b[2..] == DoubleQuotes(v[1..]);
      } else {
        assert b[1..] == DoubleQuotes(v[1..]);
      }
    }
  }

  /** A value without quotes is left as it is. */
  lemma {:induction false} DoubleQuotesNoQuote(v: string)
    requires '"' !in v
    ensures DoubleQuotes(v) == v
    decreases |v|
  {
    if v != [] {
      assert '"' !in v[1..];
      DoubleQuotesNoQuote(v[1..]);
      assert v == [v[0]] + v[1..];
    }
  }

  /** array_map of the quoting over the row's values. */
  function Escaped(values: seq<string>): (r: seq<string>)
    ensures |r| == |values|
  {
    if values == [] then [] else [Quote(values[0])] + Escaped(values[1..])
  }

  /** One output line: the quoted values joined by "," and ended by LF. */
  function RowLine(values: seq<string>): string {
    Join(Escaped(values), ",") + "\n"
  }

  /** The header line: the property names joined by `","` inside one pair of quotes; the
      names themselves are not escaped. */
  function HeaderLine(names: seq<string>): string {
    "\"" + Join(names, "\",\"") + "\"" + "\n"
  }

  // ===========================================================================
  // Reading the output back: the quoted-field grammar of section 2 of RFC 4180,
  // with LF as the line end
  // ===========================================================================

  /** The rest of a quoted field after its opening quote: the value, and what follows the
      closing quote; a doubled quote stands for one quote. None when no closing quote. */
  function ReadBody(s: string): (r: Option<(string, string)>)
    ensures r.Some? ==> |r.value.1| < |s|
    decreases |s|
  {
    if s == [] then None
    else if s[0] == '"' then
      if |s| >= 2 && s[1] == '"' then
        match ReadBody(s[2..])
        case None => None
        case Some((v, rest)) => Some(("\"" + v, rest))
      else Some(("", s[1..]))
    else
      match ReadBody(s[1..])
      case None => None
      case Some((v, rest)) => Some(([s[0]] + v, rest))
  }

  /** One record: quoted fields separated by "," up to LF; the values, and what follows. */
  function ReadFields(s: string): (r: Option<(seq<string>, string)>)
    ensures r.Some? ==> |r.value.1| < |s|
    decreases |s|
  {
    if s == [] || s[0] != '"' then None
    else
      match ReadBody(s[1..])
      case None => None
      case Some((v, rest)) =>
        if rest != [] && rest[0] == ',' then
          match ReadFields(rest[1..])
          case None => None
          case Some((vs, after)) => Some(([v] + vs, after))
        else if rest != [] && rest[0] == '\n' then Some(([v], rest[1..]))
        else None
  }

  /** A whole file: records up to the end. */
  function ReadRecords(s: string): Option<seq<seq<string>>>
    decreases |s|
  {
    if s == [] then Some([])
    else
      match ReadFields(s)
      case None => None
      case Some((vs, rest)) =>
        match ReadRecords(rest)
        case None => None
        case Some(rs) => Some([vs] + rs)
  }

  /** Un-escaping a doubled body gives the value back, and the closing quote ends it. */
  lemma {:induction false} ReadBodyDoubled(v: string, rest: string)
    requires rest == [] || rest[0] != '"'
    ensures ReadBody(DoubleQuotes(v) + "\"" + rest) == Some((v, rest))
    decreases |v|
  {
    var s := DoubleQuotes(v) + "\"" + rest;
    if v == [] {
      assert s == "\"" + rest;
      assert s[1..] == rest;
    } else {
      var tail := DoubleQuotes(v[1..]) + "\"" + rest;
      ReadBodyDoubled(v[1..], rest);
      if v[0] == '"' {
        assert s == "\"\"" + tail;
        assert s[2..] == tail;
      } else {
        assert s == [v[0]] + tail;
        assert s[1..] == tail;
      }
      assert [v[0]] + v[1..] == v;
    }
  }

  /** A quoted field reads back as its value, whatever follows when that does not start with
      a quote. */
  lemma ReadQuote(v: string, rest: string)
    requires rest == [] || rest[0] != '"'
    ensures Quote(v) + rest != [] && (Quote(v) + rest)[0] == '"'
    ensures ReadBody((Quote(v) + rest)[1..]) == Some((v, rest))
  {
    assert (Quote(v) + rest)[1..] == DoubleQuotes(v) + "\"" + rest;
    ReadBodyDoubled(v, rest);
  }

  /** A quoted field followed by LF is the last field of its record. */
  lemma ReadLastField(v: string, rest: string)
    ensures ReadFields(Quote(v) + "\n" + rest) == Some(([v], rest))
  {
    var s := Quote(v) + ("\n" + rest);
    assert Quote(v) + "\n" + rest == s;
    ReadQuote(v, "\n" + rest);
    assert ("\n" + rest)[1..] == rest;
  }

  /** A quoted field followed by "," is the first field of the record that follows. */
  lemma ReadNextField(v: string, t: string)
    requires ReadFields(t).Some?
    ensures ReadFields(Quote(v) + "," + t) == Some(([v] + ReadFields(t).value.0, ReadFields(t).value.1))
  {
    var s := Quote(v) + ("," + t);
    assert Quote(v) + "," + t == s;
    ReadQuote(v, "," + t);
    assert ("," + t)[1..] == t;
  }

  /** A rendered line reads back as exactly its values, provided it has at least one. */
  lemma {:induction false} ReadRowLine(values: seq<string>, rest: string)
    requires |values| >= 1
    ensures ReadFields(Join(Escaped(values), ",") + "\n" + rest) == Some((values, rest))
    decreases |values|
  {
    var e := Escaped(values);
    assert e[0] == Quote(values[0]);
    if |values| == 1 {
      ReadLastField(values[0], rest);
      assert values == [values[0]];
    } else {
      var t := Join(Escaped(values[1..]), ",") + "\n" + rest;
      assert e[1..] == Escaped(values[1..]);
      assert Join(e, ",") + "\n" + rest == Quote(values[0]) + "," + t;
      ReadRowLine(values[1..], rest);
      ReadNextField(values[0], t);
      assert [values[0]] + values[1..] == values;
    }
  }

  /** The lines of a file, one per record, in order. */
  function RowsText(recs: seq<seq<string>>): string {
    if recs == [] then "" else RowLine(recs[0]) + RowsText(recs[1..])
  }

  /** Writing one more record appends its line. */
  lemma {:induction false} RowsTextSnoc(recs: seq<seq<string>>, r: seq<string>)
    ensures RowsText(recs + [r]) == RowsText(recs) + RowLine(r)
    decreases |recs|
  {
    if recs == [] {
      assert [] + [r] == [r];
      assert RowsText([r]) == RowLine(r) + RowsText([]);
    } else {
      assert (recs + [r])[1..] == recs[1..] + [r];
      RowsTextSnoc(recs[1..], r);
    }
  }

  /** A file of rendered lines reads back as exactly its records. */
  lemma {:induction false} ReadRowsText(recs: seq<seq<string>>)
    requires forall k :: 0 <= k < |recs| ==> |recs[k]| >= 1
    ensures ReadRecords(RowsText(recs)) == Some(recs)
    decreases |recs|
  {
    if recs != [] {
      var rest := RowsText(recs[1..]);
      ReadRowLine(recs[0], rest);
      assert RowsText(recs) == Join(Escaped(recs[0]), ",") + "\n" + rest;
      ReadRowsText(recs[1..]);
      assert [recs[0]] + recs[1..] == recs;
    }
  }

  /** Names without quotes: the header is the names quoted one by one and joined by ",". */
  lemma {:induction false} HeaderQuotesEachName(names: seq<string>)
    requires |names| >= 1
    requires forall k :: 0 <= k < |names| ==> '"' !in names[k]
    ensures "\"" + Join(names, "\",\"") + "\"" == Join(Escaped(names), ",")
    decreases |names|
  {
    var e := Escaped(names);
    DoubleQuotesNoQuote(names[0]);
    assert e[0] == "\"" + names[0] + "\"";
    if |names| > 1 {
      assert e[1..] == Escaped(names[1..]);
      HeaderQuotesEachName(names[1..]);
      var j := Join(names[1..], "\",\"");
      assert "\",\"" == "\"" + "," + "\"";
      Regroup("\"", names[0], ",", j);
    }
  }

  /** Moving the quotes around a separator onto the neighbouring names. */
  lemma Regroup(q: string, a: string, c: string, j: string)
    ensures q + (a + (q + c + q) + j) + q == (q + a + q) + c + (q + j + q)
  {
  }

  /** When no property name holds a quote, the header is read back like a row: as exactly
      the names, in order. */
  lemma HeaderIsRow(names: seq<string>)
    requires |names| >= 1
    requires forall k :: 0 <= k < |names| ==> '"' !in names[k]
    ensures HeaderLine(names) == RowLine(names)
    ensures ReadFields(HeaderLine(names)) == Some((names, ""))
  {
    HeaderQuotesEachName(names);
    ReadRowLine(names, "");
    assert RowLine(names) + "" == RowLine(names);
  }

  // ===========================================================================
  // Projecting a raw line onto the schema's properties
  // ===========================================================================

  /** The property that carries the whole converted line. */
  const RawRecord: string := "raw_record"

  /** mapping.json: per master key, the raw column index of each mapped property. */
  type Mapping = map<string, map<string, int>>

  /** `$cols[$index] ?? ""`: the cell, or "" when the row has no such column. */
  function CellAt(cols: seq<string>, index: int): string {
    if 0 <= index < |cols| then cols[index] else ""
  }

  /** The raw columns of a converted line: str_getcsv for a CSV source, otherwise the
      tab-separated pieces. */
  function Columns(converted: string, isCsv: bool, parse: string -> seq<string>): seq<string> {
    if isCsv then parse(converted) else Split(converted, Char('\t'))
  }

  /** The value of one property: the encoded line for "raw_record", "" for a property the
      mapping does not list, otherwise the mapped column (or "" past the end of the row). */
  function FieldValue(key: string, prop: string, mapping: Mapping, converted: string,
                      cols: seq<string>, encode: string -> string): string
  {
    if prop == RawRecord then encode(converted)
    else if key !in mapping || prop !in mapping[key] then ""
    else CellAt(cols, mapping[key][prop])
  }

  /** The values of a line: one per property, in the schema's order. */
  function RowValues(key: string, props: seq<string>, mapping: Mapping, converted: string,
                     cols: seq<string>, encode: string -> string): (r: seq<string>)
    ensures |r| == |props|
    ensures forall k :: 0 <= k < |props| ==> r[k] == FieldValue(key, props[k], mapping, converted, cols, encode)
  {
    if props == [] then []
    else [FieldValue(key, props[0], mapping, converted, cols, encode)] +
         RowValues(key, props[1..], mapping, converted, cols, encode)
  }

  /** The loop over the schema's properties, appending one value per property. */
  method ProjectRow(key: string, props: seq<string>, mapping: Mapping, converted: string,
                    cols: seq<string>, encode: string -> string) returns (values: seq<string>)
    ensures values == RowValues(key, props, mapping, converted, cols, encode)
  {
    values := [];
    for i := 0 to |props|
      invariant |values| == i
      invariant forall k :: 0 <= k < i ==> values[k] == FieldValue(key, props[k], mapping, converted, cols, encode)
    {
      var prop := props[i];
      if prop == RawRecord {
        values := values + [encode(converted)];
      } else if key !in mapping || prop !in mapping[key] {
        values := values + [""];
      } else {
        var index := mapping[key][prop];
        values := values + [if 0 <= index < |cols| then cols[index] else ""];
      }
    }
  }

  /** The values a raw line (as file() returns it, line end included) yields: the line is
      right-trimmed, split, and projected. */
  function LineValues(m: Master, props: seq<string>, mapping: Mapping, line: string,
                      parse: string -> seq<string>, encode: string -> string): seq<string>
  {
    var converted := TrimRight(line);
    RowValues(m.key, props, mapping, converted, Columns(converted, IsCsvSource(m.srcFile), parse), encode)
  }

  /** The body of the per-line loop: the output line of one raw line. */
  method ConvertLine(m: Master, isCsv: bool, props: seq<string>, mapping: Mapping, line: string,
                     parse: string -> seq<string>, encode: string -> string) returns (text: string)
    requires isCsv == IsCsvSource(m.srcFile)
    ensures text == RowLine(LineValues(m, props, mapping, line, parse, encode))
  {
    var converted := TrimRight(line);
    var cols: seq<string>;
    if isCsv {
      cols := parse(converted);
    } else {
      cols := Split(converted, Char('\t'));
    }
    var values := ProjectRow(m.key, props, mapping, converted, cols, encode);
    text := Join(Escaped(values), ",") + "\n";
  }

  // --- What a line yields ---

  /** "raw_record" holds the encoding of the right-trimmed line; an unmapped property holds
      ""; a mapped one holds its column of the row, or "" when the row is shorter. */
  lemma LineFields(m: Master, props: seq<string>, mapping: Mapping, line: string,
                   parse: string -> seq<string>, encode: string -> string, k: nat)
    requires k < |props|
    ensures var v := LineValues(m, props, mapping, line, parse, encode);
      var cols := Columns(TrimRight(line), IsCsvSource(m.srcFile), parse);
      |v| == |props| &&
      (props[k] == RawRecord ==> v[k] == encode(TrimRight(line))) &&
      (props[k] != RawRecord && (m.key !in mapping || props[k] !in mapping[m.key]) ==> v[k] == "") &&
      (props[k] != RawRecord && m.key in mapping && props[k] in mapping[m.key] ==>
         v[k] == (if 0 <= mapping[m.key][props[k]] < |cols| then cols[mapping[m.key][props[k]]] else ""))
  {
  }

  /** For a source that is not CSV, the columns are the tab-separated pieces of the
      right-trimmed line: rejoined with tabs they give that line back, and none holds a tab. */
  lemma TabColumns(converted: string, parse: string -> seq<string>)
    ensures Join(Columns(converted, false, parse), "\t") == converted
    ensures forall k :: 0 <= k < |Columns(converted, false, parse)| ==> '\t' !in Columns(converted, false, parse)[k]
  {
    var cols := Split(converted, Char('\t'));
    JoinSplit(converted, '\t');
    SplitNoBreak(converted, Char('\t'));
    forall k | 0 <= k < |cols|
      ensures '\t' !in cols[k]
    {
      assert NoBreak(Char('\t'), cols[k]);
    }
  }

  /** Every configured master is read as CSV. */
  lemma AllMastersAreCsv()
    ensures forall k :: 0 <= k < |Masters| ==> IsCsvSource(Masters[k].srcFile)
  {
    forall k | 0 <= k < |Masters|
      ensures IsCsvSource(Masters[k].srcFile)
    {
      var f := Masters[k].srcFile;
      assert f == Masters[k].key + ".csv";
      assert f[|f| - 4..] == ".csv";
    }
  }

  // ===========================================================================
  // The output file of a master
  // ===========================================================================

  /** The records written for the raw lines, one per line, in order. */
  function Records(m: Master, props: seq<string>, mapping: Mapping, lines: seq<string>,
                   parse: string -> seq<string>, encode: string -> string): (r: seq<seq<string>>)
    ensures |r| == |lines|
    ensures forall k :: 0 <= k < |lines| ==> r[k] == LineValues(m, props, mapping, lines[k], parse, encode)
  {
    if lines == [] then []
    else Records(m, props, mapping, lines[..|lines| - 1], parse, encode) +
         [LineValues(m, props, mapping, lines[|lines| - 1], parse, encode)]
  }

  /** The whole normalized file: the header line, then one line per raw line. */
  function NormalizedText(m: Master, props: seq<string>, mapping: Mapping, lines: seq<string>,
                          parse: string -> seq<string>, encode: string -> string): string
  {
    HeaderLine(props) + RowsText(Records(m, props, mapping, lines, parse, encode))
  }

  /** Reading the normalized file back gives the property names, then for every raw line in
      order exactly one record holding that line's values (one per property), blank lines
      included; it needs at least one property, and property names without quotes, since
      the header is not escaped. */
  lemma NormalizedReadsBack(m: Master, props: seq<string>, mapping: Mapping, lines: seq<string>,
                            parse: string -> seq<string>, encode: string -> string)
    requires |props| >= 1
    requires forall k :: 0 <= k < |props| ==> '"' !in props[k]
    ensures ReadRecords(NormalizedText(m, props, mapping, lines, parse, encode)) ==
            Some([props] + Records(m, props, mapping, lines, parse, encode))
  {
    var recs := Records(m, props, mapping, lines, parse, encode);
    var all := [props] + recs;
    HeaderIsRow(props);
    assert all[0] == props && all[1..] == recs;
    assert RowsText(all) == RowLine(props) + RowsText(recs);
    forall k | 0 <= k < |all|
      ensures |all[k]| >= 1
    {
      if k > 0 {
        assert all[k] == recs[k - 1];
      }
    }
    ReadRowsText(all);
  }

  /** The normalized files, by name. fopen(..., 'w') creates a file or empties it, and each
      fwrite appends to it. */
  class NormalizedDir {
    var files: map<string, string>

    constructor (files: map<string, string>)
      ensures this.files == files
    {
      this.files := files;
    }

    method Open(path: string)
      modifies this
      ensures files == old(files)[path := ""]
    {
      files := files[path := ""];
    }

    method Write(path: string, text: string)
      requires path in files
      modifies this
      ensures files == old(files)[path := old(files)[path] + text]
    {
      files := files[path := files[path] + text];
    }
  }

  /** One line more adds its record's line at the end of the rows. */
  lemma RowsSnoc(m: Master, props: seq<string>, mapping: Mapping, lines: seq<string>,
                 parse: string -> seq<string>, encode: string -> string, i: nat)
    requires i < |lines|
    ensures RowsText(Records(m, props, mapping, lines[..i + 1], parse, encode)) ==
            RowsText(Records(m, props, mapping, lines[..i], parse, encode)) +
            RowLine(LineValues(m, props, mapping, lines[i], parse, encode))
  {
    assert lines[..i + 1][..i] == lines[..i];
    var recs := Records(m, props, mapping, lines[..i], parse, encode);
    var r := LineValues(m, props, mapping, lines[i], parse, encode);
    assert Records(m, props, mapping, lines[..i + 1], parse, encode) == recs + [r];
    RowsTextSnoc(recs, r);
  }

  /** One master: open its output, write the header, then the lines. */
  method ConvertMasterFile(dir: NormalizedDir, m: Master, props: seq<string>, mapping: Mapping,
                           lines: seq<string>, parse: string -> seq<string>, encode: string -> string)
    modifies dir
    ensures dir.files == old(dir.files)[OutPath(m.key) := NormalizedText(m, props, mapping, lines, parse, encode)]
  {
    var path := OutPath(m.key);
    dir.Open(path);
    dir.Write(path, HeaderLine(props));
    assert dir.files[path] == HeaderLine(props);
    WriteLines(dir, m, props, mapping, lines, parse, encode);
  }

  /** The per-line loop: one output line per raw line, appended in order. */
  method WriteLines(dir: NormalizedDir, m: Master, props: seq<string>, mapping: Mapping,
                    lines: seq<string>, parse: string -> seq<string>, encode: string -> string)
    requires OutPath(m.key) in dir.files
    modifies dir
    ensures dir.files == old(dir.files)[OutPath(m.key) := old(dir.files)[OutPath(m.key)] +
                                          RowsText(Records(m, props, mapping, lines, parse, encode))]
  {
    var path := OutPath(m.key);
    var isCsv := IsCsvSource(m.srcFile);
    ghost var start := dir.files[path];
    assert Records(m, props, mapping, lines[..0], parse, encode) == [];
    assert start + "" == start;
    for i := 0 to |lines|
      invariant dir.files == old(dir.files)[path := start + RowsText(Records(m, props, mapping, lines[..i], parse, encode))]
    {
      WriteLine(dir, m, isCsv, props, mapping, lines, i, parse, encode, start);
    }
    assert lines[..|lines|] == lines;
  }

  /** One pass of the per-line loop: convert raw line `i` and append its output line after
      those of the lines before it. */
  method WriteLine(dir: NormalizedDir, m: Master, isCsv: bool, props: seq<string>, mapping: Mapping,
                   lines: seq<string>, i: nat, parse: string -> seq<string>, encode: string -> string,
                   ghost start: string)
    requires i < |lines| && isCsv == IsCsvSource(m.srcFile)
    requires OutPath(m.key) in dir.files
    requires dir.files[OutPath(m.key)] == start + RowsText(Records(m, props, mapping, lines[..i], parse, encode))
    modifies dir
    ensures dir.files == old(dir.files)[OutPath(m.key) := start + RowsText(Records(m, props, mapping, lines[..i + 1], parse, encode))]
  {
    ghost var before := RowsText(Records(m, props, mapping, lines[..i], parse, encode));
    ghost var line := RowLine(LineValues(m, props, mapping, lines[i], parse, encode));
    RowsSnoc(m, props, mapping, lines, parse, encode, i);
    AppendAssoc(start, before, line);
    var text := ConvertLine(m, isCsv, props, mapping, lines[i], parse, encode);
    dir.Write(OutPath(m.key), text);
  }

  /** Appending to a file whose text is `start + before` leaves `start` followed by
      `before + line`. */
  lemma AppendAssoc(start: string, before: string, line: string)
    ensures start + before + line == start + (before + line)
  {
  }

  // ===========================================================================
  // The whole run
  // ===========================================================================

  /** The file a master produces: none when its schema or its raw file is missing.
      `schemaOf` gives a schema's property names, `rawOf` a raw file's lines. */
  function MasterOutput(m: Master, schemaOf: string -> Option<seq<string>>, mapping: Mapping,
                        rawOf: string -> Option<seq<string>>, parse: string -> seq<string>,
                        encode: string -> string): seq<(string, string)>
  {
    match schemaOf(m.key)
    case None => []
    case Some(props) =>
      match rawOf(m.srcFile)
      case None => []
      case Some(lines) => [(OutPath(m.key), NormalizedText(m, props, mapping, lines, parse, encode))]
  }

  /** The files the masters `ms` produce, in order. */
  function RunOutputs(ms: seq<Master>, schemaOf: string -> Option<seq<string>>, mapping: Mapping,
                      rawOf: string -> Option<seq<string>>, parse: string -> seq<string>,
                      encode: string -> string): seq<(string, string)>
  {
    if ms == [] then []
    else RunOutputs(ms[..|ms| - 1], schemaOf, mapping, rawOf, parse, encode) +
         MasterOutput(ms[|ms| - 1], schemaOf, mapping, rawOf, parse, encode)
  }

  /** The masters in order, each skipped when its schema or raw file is missing. */
  method ConvertMasters(dir: NormalizedDir, ms: seq<Master>, schemaOf: string -> Option<seq<string>>,
                        mapping: Mapping, rawOf: string -> Option<seq<string>>,
                        parse: string -> seq<string>, encode: string -> string)
    modifies dir
    ensures dir.files == KeyedWrites.Apply(old(dir.files), RunOutputs(ms, schemaOf, mapping, rawOf, parse, encode))
  {
    for n := 0 to |ms|
      invariant dir.files == KeyedWrites.Apply(old(dir.files), RunOutputs(ms[..n], schemaOf, mapping, rawOf, parse, encode))
    {
      assert ms[..n + 1][..n] == ms[..n];
      var m := ms[n];
      var done := RunOutputs(ms[..n], schemaOf, mapping, rawOf, parse, encode);
      assert RunOutputs(ms[..n + 1], schemaOf, mapping, rawOf, parse, encode) ==
             done + MasterOutput(m, schemaOf, mapping, rawOf, parse, encode);
      var props := schemaOf(m.key);
      var lines := rawOf(m.srcFile);
      if props.None? || lines.None? {
        assert MasterOutput(m, schemaOf, mapping, rawOf, parse, encode) == [];
        assert done + [] == done;
        continue;
      }
      var w := (OutPath(m.key), NormalizedText(m, props.value, mapping, lines.value, parse, encode));
      assert MasterOutput(m, schemaOf, mapping, rawOf, parse, encode) == [w];
      KeyedWrites.ApplySnoc(old(dir.files), done, w);
      ConvertMasterFile(dir, m, props.value, mapping, lines.value, parse, encode);
    }
    assert ms[..|ms|] == ms;
  }

  /** The script: every configured master. */
  method ConvertCentralMasters(dir: NormalizedDir, schemaOf: string -> Option<seq<string>>,
                               mapping: Mapping, rawOf: string -> Option<seq<string>>,
                               parse: string -> seq<string>, encode: string -> string)
    modifies dir
    ensures dir.files == KeyedWrites.Apply(old(dir.files), RunOutputs(Masters, schemaOf, mapping, rawOf, parse, encode))
  {
    ConvertMasters(dir, Masters, schemaOf, mapping, rawOf, parse, encode);
  }
}
