/**
 * The main loop of convert_qanda_txt_to_md.php: every input document is normalised,
 * dated, categorised and cut into questions, and each question is written to the output
 * directory as one Markdown file named after the date, the question number and the
 * category. The file system is an `OutputDirectory` object whose `files` map the loop
 * updates; the directory listing and the reading of each file are given as inputs.
 */
module QandaMain {
  import opened Wrappers
  import opened PhpStrings
  import opened Qanda
  import KeyedWrites

  // ===========================================================================
  // Line-ending normalisation: str_replace(["\r\n", "\r"], "\n", $text)
  // ===========================================================================

  /** str_replace("\r\n", "\n", $s): the CRLF pairs, found left to right, become LF. */
  function ReplaceCrLf(s: string): (r: string)
    ensures |r| <= |s|
  {
    if s == [] then []
    else if |s| >= 2 && s[0] == '\r' && s[1] == '\n' then "\n" + ReplaceCrLf(s[2..])
    else [s[0]] + ReplaceCrLf(s[1..])
  }

  /** str_replace("\r", "\n", $s) */
  function ReplaceCr(s: string): string {
    seq(|s|, i requires 0 <= i < |s| => if s[i] == '\r' then '\n' else s[i])
  }

  /** With an array of searches str_replace runs them one after the other over the whole
      text, so CRLF pairs are merged first and the lone CRs are replaced after. No CR is
      left and the text never grows. */
  function NormalizeEol(s: string): (r: string)
    ensures |r| <= |s|
    ensures NoCr(r)
  {
    ReplaceCr(ReplaceCrLf(s))
  }

  predicate NoCr(s: string) {
    forall i :: 0 <= i < |s| ==> s[i] != '\r'
  }

  lemma {:induction false} ReplaceCrLfPrefix(p: string, t: string)
    requires NoCr(p)
    ensures ReplaceCrLf(p + t) == p + ReplaceCrLf(t)
    decreases |p|
  {
    if p == [] {
      assert p + t == t;
    } else {
      assert (p + t)[0] == p[0];
      assert (p + t)[1..] == p[1..] + t;
      ReplaceCrLfPrefix(p[1..], t);
      assert p + ReplaceCrLf(t) == [p[0]] + (p[1..] + ReplaceCrLf(t));
    }
  }

  lemma ReplaceCrConcat(a: string, b: string)
    ensures ReplaceCr(a + b) == ReplaceCr(a) + ReplaceCr(b)
  {
  }

  /** Text without CR is left as it is, so normalising twice is normalising once. */
  lemma NormalizeEolWithoutCr(s: string)
    requires NoCr(s)
    ensures NormalizeEol(s) == s
  {
    ReplaceCrLfPrefix(s, []);
    assert s + [] == s;
  }

  lemma NormalizeEolIdempotent(s: string)
    ensures NormalizeEol(NormalizeEol(s)) == NormalizeEol(s)
  {
    NormalizeEolWithoutCr(NormalizeEol(s));
  }

  /** A line break (CRLF, CR not followed by LF, or LF) after text without CR becomes a
      single LF, and the text before it is kept. */
  lemma NormalizeEolBreak(p: string, b: string, rest: string)
    requires NoCr(p)
    requires b == "\r\n" || b == "\n" || (b == "\r" && (rest == [] || rest[0] != '\n'))
    ensures NormalizeEol(p + b + rest) == p + "\n" + NormalizeEol(rest)
  {
    assert p + b + rest == p + (b + rest);
    ReplaceCrLfPrefix(p, b + rest);
    NormalizeEolLeadingBreak(b, rest);
    ReplaceCrConcat(p, ReplaceCrLf(b + rest));
    NormalizeEolWithoutCr(p);
  }

  lemma NormalizeEolLeadingBreak(b: string, rest: string)
    requires b == "\r\n" || b == "\n" || (b == "\r" && (rest == [] || rest[0] != '\n'))
    ensures NormalizeEol(b + rest) == "\n" + NormalizeEol(rest)
  {
    assert (b + rest)[|b|..] == rest;
    if b == "\r" {
      assert ReplaceCrLf(b + rest) == "\r" + ReplaceCrLf(rest);
      ReplaceCrConcat("\r", ReplaceCrLf(rest));
    } else {
      assert ReplaceCrLf(b + rest) == "\n" + ReplaceCrLf(rest);
      ReplaceCrConcat("\n", ReplaceCrLf(rest));
    }
  }

  /** The text before the first line break is kept, and that break becomes a single LF. */
  lemma NormalizeEolStep(s: string)
    requires FirstBreak(s, AnyEol, 0) < |s|
    ensures var j := FirstBreak(s, AnyEol, 0);
      NormalizeEol(s) == s[..j] + "\n" + NormalizeEol(s[j + BreakLen(s, j, AnyEol)..])
  {
    var j := FirstBreak(s, AnyEol, 0);
    BeforeFirstBreak(s, AnyEol, 0);
    assert NoCr(s[..j]);
    NormalizeEolAt(s, j, BreakLen(s, j, AnyEol));
  }

  lemma NormalizeEolAt(s: string, j: nat, n: nat)
    requires j + n <= |s| && NoCr(s[..j])
    requires (n == 2 && s[j] == '\r' && s[j + 1] == '\n') || (n == 1 && s[j] == '\n') ||
             (n == 1 && s[j] == '\r' && (j + 1 == |s| || s[j + 1] != '\n'))
    ensures NormalizeEol(s) == s[..j] + "\n" + NormalizeEol(s[j + n..])
  {
    var p, b, rest := s[..j], s[j..j + n], s[j + n..];
    if n == 2 {
      assert b == "\r\n";
    } else {
      assert b == [s[j]];
    }
    ThreeParts(s, j, j + n);
    NormalizeEolBreak(p, b, rest);
  }

  lemma ThreeParts(s: string, a: nat, b: nat)
    requires a <= b <= |s|
    ensures s == s[..a] + s[a..b] + s[b..]
  {
    assert s[..b] == s[..a] + s[a..b];
  }

  /** Normalising is cutting the text into lines at CRLF, CR or LF and joining the lines
      again with LF. */
  lemma {:induction false} NormalizeEolJoinsLines(s: string)
    ensures NormalizeEol(s) == Join(Split(s, AnyEol), "\n")
    decreases |s|
  {
    var j := FirstBreak(s, AnyEol, 0);
    BeforeFirstBreak(s, AnyEol, 0);
    if j == |s| {
      assert NoCr(s);
      NormalizeEolWithoutCr(s);
    } else {
      var rest := s[j + BreakLen(s, j, AnyEol)..];
      var parts := Split(s, AnyEol);
      NormalizeEolStep(s);
      NormalizeEolJoinsLines(rest);
      assert parts == [s[..j]] + Split(rest, AnyEol);
      assert parts[1..] == Split(rest, AnyEol);
    }
  }

  /** Normalising keeps the lines: the LF-separated lines of the result are the lines of the
      original under CRLF, CR and LF. */
  lemma NormalizeEolKeepsLines(s: string)
    ensures Split(NormalizeEol(s), Char('\n')) == Split(s, AnyEol)
  {
    var parts := Split(s, AnyEol);
    SplitNoBreak(s, AnyEol);
    forall k | 0 <= k < |parts|
      ensures NoBreak(Char('\n'), parts[k])
    {
      assert NoBreak(AnyEol, parts[k]);
    }
    NormalizeEolJoinsLines(s);
    SplitJoin(parts, '\n', Char('\n'));
  }

  // ===========================================================================
  // The date fields of one document
  // ===========================================================================

  const NoDate: string := "0000-00-00"
  const NoDateForName: string := "00000000"

  /** $dateYmd after the fallback: the formatted date, or 0000-00-00. */
  function DateField(date: Option<Date>): string {
    match date
    case None => NoDate
    case Some(d) => FormatDate(d)
  }

  /** $dateForName: the formatted date without its dashes, or 00000000. */
  function DateForName(date: Option<Date>): string {
    match date
    case None => NoDateForName
    case Some(d) => DateDigits(d)
  }

  /** Both branches agree: the name's date is the metadata date with the dashes removed. */
  lemma DateForNameIsDateFieldWithoutDashes(date: Option<Date>)
    ensures DateForName(date) == Without(DateField(date), {'-'})
  {
    if date.None? {
      NoDateWithoutDashes();
    }
  }

  /** The placeholder dates, field by field. */
  lemma NoDateFields()
    ensures NoDate == "0000" + ['-'] + ("00" + ['-'] + "00")
    ensures NoDateForName == "0000" + ("00" + "00")
  {
  }

  /** The placeholder date without its dashes is the placeholder name date. */
  lemma NoDateWithoutDashes()
    ensures Without(NoDate, {'-'}) == NoDateForName
  {
    var zz: string := "00";
    var zzzz: string := "0000";
    var tail := zz + ['-'] + zz;
    NoDateFields();
    assert forall i :: 0 <= i < |zz| ==> zz[i] != '-';
    assert forall i :: 0 <= i < |zzzz| ==> zzzz[i] != '-';
    WithoutAfterPart(zzzz, '-', tail);
    WithoutAfterPart(zz, '-', zz);
    WithoutAbsent(zz, {'-'});
  }

  /** The name's date is made of ASCII digits only, at least eight of them: four for the
      year, two for the month, two for the day. */
  lemma DateForNameDigits(date: Option<Date>)
    ensures AllAsciiDigits(DateForName(date)) && |DateForName(date)| >= 8
  {
    match date
    case None =>
    case Some(d) =>
      DateDigitsAreThePaddedFields(d);
      var y, m, dd := ZeroPad(d.year, 4), ZeroPad(d.month, 2), ZeroPad(d.day, 2);
      var s := y + m + dd;
      forall i | 0 <= i < |s|
        ensures IsAsciiDigit(s[i])
      {
        if i < |y| {
          assert s[i] == y[i];
        } else if i < |y| + |m| {
          assert s[i] == m[i - |y|];
        } else {
          assert s[i] == dd[i - |y| - |m|];
        }
      }
  }

  /** A category never holds the underscore that separates the parts of a file name. */
  lemma CategoryHasNoUnderscore(text: string)
    ensures '_' !in DetectCategory(text)
  {
    var c := DetectCategory(text);
    assert c in Categories;
    assert '_' !in Medical && '_' !in Dental && '_' !in Pharmacy;
    assert '_' !in HomeNursing && '_' !in Common;
  }

  // ===========================================================================
  // What the main loop does with one document
  // ===========================================================================

  /** One input .txt file: its base name and what file_get_contents gave (None for false). */
  datatype Document = Document(baseName: string, content: Option<string>)

  /** Why a document produced no file. */
  datatype SkipReason = EmptyOrUnreadable | NoQuestions

  /** The outcome of one iteration of the main loop: skipped, or the (file name, Markdown)
      writes in the order they happen. */
  datatype Outcome = Skipped(reason: SkipReason) | Converted(writes: seq<(string, string)>)

  function Writes(o: Outcome): seq<(string, string)> {
    if o.Converted? then o.writes else []
  }

  /** The write for one question block of a document: the file name from the name's date,
      the number and the category; the Markdown from the metadata and the split block. */
  function QuestionWrite(baseName: string, dateField: string, dateForName: string,
                         category: string, q: QuestionBlock): (string, string)
  {
    var qa := SplitQA(q.text);
    (FileName(dateForName, q.number, category),
     Markdown(Meta(q.number, dateField, baseName, category, qa.question, qa.answer)))
  }

  function QuestionWrites(baseName: string, dateField: string, dateForName: string,
                          category: string, qs: seq<QuestionBlock>): (ws: seq<(string, string)>)
    ensures |ws| == |qs|
  {
    if qs == [] then []
    else
      QuestionWrites(baseName, dateField, dateForName, category, qs[..|qs| - 1]) +
      [QuestionWrite(baseName, dateField, dateForName, category, qs[|qs| - 1])]
  }

  lemma {:induction false} QuestionWritesIndex(baseName: string, dateField: string, dateForName: string,
                                               category: string, qs: seq<QuestionBlock>, k: nat)
    requires k < |qs|
    ensures QuestionWrites(baseName, dateField, dateForName, category, qs)[k] ==
      QuestionWrite(baseName, dateField, dateForName, category, qs[k])
  {
    if k < |qs| - 1 {
      QuestionWritesIndex(baseName, dateField, dateForName, category, qs[..|qs| - 1], k);
    }
  }

  /** The normalised text of a readable, non-empty document. */
  function DocumentText(doc: Document): string
    requires doc.content.Some?
  {
    NormalizeEol(doc.content.value)
  }

  /** One iteration of the main loop. */
  function Convert(doc: Document): Outcome {
    if doc.content.None? || doc.content.value == "" then Skipped(EmptyOrUnreadable)
    else
      var text := DocumentText(doc);
      var qs := QuestionBlocks(text);
      if qs == [] then Skipped(NoQuestions)
      else
        var date := ExtractDate(text);
        Converted(QuestionWrites(doc.baseName, DateField(date), DateForName(date), DetectCategory(text), qs))
  }

  /** A document is skipped as empty exactly when it cannot be read or is empty, skipped
      for want of questions exactly when it has no marker line, and otherwise writes one
      file per marker line. */
  lemma ConvertOutcome(doc: Document)
    ensures Convert(doc) == Skipped(EmptyOrUnreadable) <==> doc.content in {None, Some("")}
    ensures Convert(doc) == Skipped(NoQuestions) <==>
      doc.content.Some? && doc.content.value != "" && MarkerCount(Lines(DocumentText(doc))) == 0
    ensures Convert(doc).Converted? ==>
      |Convert(doc).writes| == MarkerCount(Lines(DocumentText(doc))) >= 1
  {
    if doc.content.Some? && doc.content.value != "" {
      var text := DocumentText(doc);
      var qs := QuestionBlocks(text);
      assert |qs| == MarkerCount(Lines(text));
      if qs != [] {
        var date := ExtractDate(text);
        assert Convert(doc).writes ==
          QuestionWrites(doc.baseName, DateField(date), DateForName(date), DetectCategory(text), qs);
      }
    }
  }

  /** The k-th write of a converted document belongs to its k-th question block. */
  lemma ConvertedWrite(doc: Document, k: nat)
    requires Convert(doc).Converted? && k < |Convert(doc).writes|
    ensures var text := DocumentText(doc);
      var qs := QuestionBlocks(text);
      k < |qs| &&
      var date := ExtractDate(text);
      Convert(doc).writes[k] == QuestionWrite(doc.baseName, DateField(date), DateForName(date), DetectCategory(text), qs[k])
  {
    var text := DocumentText(doc);
    var date := ExtractDate(text);
    QuestionWritesIndex(doc.baseName, DateField(date), DateForName(date), DetectCategory(text),
                        QuestionBlocks(text), k);
  }

  /** Without a Reiwa date every file of the document is named 00000000_Q<n>_<category>.md
      and its Markdown gives the date as 0000-00-00 on its second line. */
  lemma UndatedDocument(doc: Document, k: nat)
    requires Convert(doc).Converted? && k < |Convert(doc).writes|
    requires ExtractDate(DocumentText(doc)).None?
    ensures var text := DocumentText(doc);
      var n := QuestionBlocks(text)[k].number;
      var w := Convert(doc).writes[k];
      w.0 == NoDateForName + "_Q" + NatToString(n) + "_" + DetectCategory(text) + ".md" &&
      IsPrefix("# Q" + NatToString(n) + "\n" + "date: " + NoDate + "\n", w.1)
  {
    ConvertedWrite(doc, k);
    var text := DocumentText(doc);
    var q := QuestionBlocks(text)[k];
    var qa := SplitQA(q.text);
    MarkdownHead(Meta(q.number, NoDate, doc.baseName, DetectCategory(text), qa.question, qa.answer));
  }

  predicate IsPrefix(p: string, s: string) {
    |p| <= |s| && s[..|p|] == p
  }

  /** The Markdown opens with the question heading and the date line. */
  lemma MarkdownHead(meta: Meta)
    ensures IsPrefix("# Q" + NatToString(meta.number) + "\n" + "date: " + meta.date + "\n", Markdown(meta))
  {
    var ls := MarkdownLines(meta);
    var h := "# Q" + NatToString(meta.number) + "\n" + "date: " + meta.date + "\n";
    assert ls[1..][1..][0] == "source_file: " + meta.sourceFile;
    assert Join(ls, "\n") == ls[0] + "\n" + (ls[1] + "\n" + Join(ls[1..][1..], "\n"));
    assert Markdown(meta) == h + (Join(ls[1..][1..], "\n") + "\n");
  }

  /** Within a document, a file name stands for one question number: the file of the last
      block numbered n holds that block's Markdown, so an earlier block with the same number
      is overwritten. */
  lemma LastBlockOfNumberWins(doc: Document, m: map<string, string>, k: nat)
    requires Convert(doc).Converted? && k < |Convert(doc).writes|
    requires var qs := QuestionBlocks(DocumentText(doc));
      forall j :: k < j < |qs| ==> qs[j].number != qs[k].number
    ensures var ws := Convert(doc).writes;
      KeyedWrites.Apply(m, ws)[ws[k].0] == ws[k].1
  {
    var text := DocumentText(doc);
    var qs := QuestionBlocks(text);
    var ws := Convert(doc).writes;
    var date, category := ExtractDate(text), DetectCategory(text);
    DateForNameDigits(date);
    assert '_' !in DateForName(date) by {
      assert forall i :: 0 <= i < |DateForName(date)| ==> IsAsciiDigit(DateForName(date)[i]);
    }
    CategoryHasNoUnderscore(text);
    forall j | k < j < |ws|
      ensures ws[j].0 != ws[k].0
    {
      ConvertedWrite(doc, j);
      ConvertedWrite(doc, k);
      if ws[j].0 == ws[k].0 {
        FileNameInjective(DateForName(date), qs[j].number, category,
                          DateForName(date), qs[k].number, category);
      }
    }
    KeyedWrites.LastWriteWins(m, ws, k);
  }

  // ===========================================================================
  // The whole run
  // ===========================================================================

  /** The writes of all documents, in glob order. */
  function AllWrites(docs: seq<Document>): seq<(string, string)> {
    if docs == [] then [] else AllWrites(docs[..|docs| - 1]) + Writes(Convert(docs[|docs| - 1]))
  }

  /** Converting the same input again leaves the output directory as one run left it. */
  lemma RerunChangesNothing(m: map<string, string>, docs: seq<Document>)
    ensures var once := KeyedWrites.Apply(m, AllWrites(docs));
      KeyedWrites.Apply(once, AllWrites(docs)) == once
  {
    KeyedWrites.ApplyTwice(m, AllWrites(docs));
  }

  /** The output directory: file name to content. */
  class OutputDirectory {
    var files: map<string, string>

    constructor (files: map<string, string>)
      ensures this.files == files
    {
      this.files := files;
    }

    /** file_put_contents: create the file or replace its content. */
    method Put(name: string, content: string)
      modifies this
      ensures files == old(files)[name := content]
    {
      files := files[name := content];
    }
  }

  /** One iteration of the main loop, writing each question's file as it goes. */
  method ConvertDocument(out: OutputDirectory, doc: Document) returns (outcome: Outcome)
    modifies out
    ensures outcome == Convert(doc)
    ensures out.files == KeyedWrites.Apply(old(out.files), Writes(outcome))
  {
    if doc.content.None? || doc.content.value == "" {
      return Skipped(EmptyOrUnreadable);
    }
    var text := NormalizeEol(doc.content.value);
    var dateYmd := ExtractDateYmd(text);
    var dateField, dateForName;
    if dateYmd.None? {
      dateField, dateForName := NoDate, NoDateForName;
    } else {
      dateField, dateForName := dateYmd.value, Without(dateYmd.value, {'-'});
    }
    assert dateField == DateField(ExtractDate(text));
    assert dateForName == DateForName(ExtractDate(text));
    var category := DetectCategory(text);
    var questions := SplitIntoQuestions(text);
    if questions == [] {
      return Skipped(NoQuestions);
    }
    var written := WriteQuestions(out, doc.baseName, dateField, dateForName, category, questions);
    return Converted(written);
  }

  /** The per-question loop: split each block, render it and write it to its file. */
  method WriteQuestions(out: OutputDirectory, baseName: string, dateField: string,
                        dateForName: string, category: string, questions: seq<QuestionBlock>)
    returns (written: seq<(string, string)>)
    modifies out
    ensures written == QuestionWrites(baseName, dateField, dateForName, category, questions)
    ensures out.files == KeyedWrites.Apply(old(out.files), written)
  {
    written := [];
    for i := 0 to |questions|
      invariant written == QuestionWrites(baseName, dateField, dateForName, category, questions[..i])
      invariant out.files == KeyedWrites.Apply(old(out.files), written)
    {
      var q := questions[i];
      var qa := SplitQuestionAnswer(q.text);
      var md := Markdown(Meta(q.number, dateField, baseName, category, qa.question, qa.answer));
      var fileName := FileName(dateForName, q.number, category);
      out.Put(fileName, md);
      KeyedWrites.ApplySnoc(old(out.files), written, (fileName, md));
      QuestionWritesSnoc(baseName, dateField, dateForName, category, questions, i);
      written := written + [(fileName, md)];
    }
    assert questions[..|questions|] == questions;
  }

  lemma QuestionWritesSnoc(baseName: string, dateField: string, dateForName: string,
                           category: string, qs: seq<QuestionBlock>, i: nat)
    requires i < |qs|
    ensures QuestionWrites(baseName, dateField, dateForName, category, qs[..i + 1]) ==
      QuestionWrites(baseName, dateField, dateForName, category, qs[..i]) +
      [QuestionWrite(baseName, dateField, dateForName, category, qs[i])]
  {
    assert qs[..i + 1][..i] == qs[..i];
  }

  /** The main program: exit status 1 when the input directory is missing or holds no .txt
      file, otherwise every document in turn and status 0. */
  method ConvertAll(out: OutputDirectory, inputExists: bool, docs: seq<Document>) returns (status: nat)
    modifies out
    ensures status == (if !inputExists || docs == [] then 1 else 0)
    ensures out.files == KeyedWrites.Apply(old(out.files), if status == 0 then AllWrites(docs) else [])
  {
    if !inputExists || docs == [] {
      return 1;
    }
    for i := 0 to |docs|
      invariant out.files == KeyedWrites.Apply(old(out.files), AllWrites(docs[..i]))
    {
      var outcome := ConvertDocument(out, docs[i]);
      assert docs[..i + 1][..i] == docs[..i];
      KeyedWrites.ApplyAppend(old(out.files), AllWrites(docs[..i]), Writes(outcome));
    }
    assert docs[..|docs|] == docs;
    return 0;
  }
}
