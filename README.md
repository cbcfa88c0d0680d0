# Medical fee database converters, modelled in Dafny

This project models the data-conversion scripts of a medical fee (診療報酬) database:

- **The Q&A extractor** (`natural-language-rules/convert_qanda_txt_to_md.php`) reads the
  plain-text dump of an official 疑義解釈 (interpretation Q&A) notice. It normalises line ends,
  finds the Reiwa-era date and the category of the notice, and cuts the text into one block per
  `問N` marker line. It splits each block into question and answer at `（答）`, and writes each
  question as a Markdown file named `<YYYYMMDD>_Q<n>_<category>.md`.
- **The rule-table converter** (`rule-tables/R6/convert_rule_tables.php`) reads the CSV files of
  five rule tables: supplemental, inclusive, exclusive, inpatient-base and count-limits. It drops
  the header row and turns every row with a non-blank code into one JSON record. The record is
  saved as `<category>/<code>.json`, so a later row with the same code replaces an earlier one.
- **The earlier converter of the same tables** (`rule-tables/R6/convert_master.php`) differs in
  several ways:
  - It cuts lines at LF only.
  - It takes the code from column 0, untrimmed.
  - It reads comma-separated list cells.
  - It checks cells with PHP's `empty()`, for which `"0"` is empty.
- **The central-master normaliser** (`central-master/R6/convert_master.php`) turns each raw master
  file, line by line, into a CSV file:
  - The master's schema names the columns, and a mapping gives the raw column behind each one.
  - A `raw_record` column carries the encoded raw line.
  - Every field is quoted, with inner quotes doubled, as in section 2 of RFC 4180 (rules 5 to 7).
  - Every line ends in LF.

Modules:

| module | file | what it holds |
|---|---|---|
| `Wrappers` | `wrappers.dfy` | `Option` (PHP's `null` / an unset key, and `??`) |
| `PhpStrings` | `php_strings.dfy` | `trim`/`rtrim`, `mb_strpos`, `explode`/`preg_split`/`implode`, character-class removal, `intval`, `sprintf('%d')`/`'%0Nd'`, `empty()`, `array_filter` |
| `KeyedWrites` | `keyed_writes.dfy` | a directory as a map from name to content; a list of overwriting writes applied in order |
| `Qanda` | `qanda.dfy` | the string functions of the Q&A extractor, and its two loops as methods |
| `QandaMain` | `qanda_main.dfy` | the Q&A main loop over documents, writing into an `OutputDirectory` object |
| `RuleJson` | `rule_json.dfy` | categories, record types, cell access, the stride-1/stride-2 column walk, the `RecordStore` object |
| `RuleTables` | `rule_tables.dfy` | `convert_rule_tables.php` |
| `RuleMaster` | `rule_master.dfy` | `rule-tables/R6/convert_master.php` |
| `CentralMaster` | `central_master.dfy` | `central-master/R6/convert_master.php`, with an RFC 4180 reader that reads its output back |

How the model is built:

- Text is a sequence of code points.
- Functions that only compute become Dafny functions.
- Loops that build arrays, and the per-file and per-line output loops, become methods with loop
  invariants. Each method is proved equal to a specification function.
- The output directories are objects whose `files` or `records` map the methods update.
- The properties are proved as lemmas about the specification functions.

The record written for a row is a datatype with the fields of the JSON object. JSON text itself
is not produced.

## Model

| member | source | states |
|---|---|---|
| `PhpStrings.Trim` | rule-tables/R6/convert_rule_tables.php:113 | trim() with its default list: the text without its leading and trailing space, tab, LF, CR, NUL and VT |
| `PhpStrings.TrimRight` | central-master/R6/convert_master.php:61 | rtrim() with its default list: the text without its trailing space, tab, LF, CR, NUL and VT |
| `PhpStrings.Split` | rule-tables/R6/convert_rule_tables.php:54 | explode() and the two preg_split() line-break patterns: the pieces between separator matches, left to right, always at least one; CRLF is one break |
| `PhpStrings.Join` | natural-language-rules/convert_qanda_txt_to_md.php:236 | implode(): the pieces with the glue between each two |
| `PhpStrings.IntVal` | rule-tables/R6/convert_rule_tables.php:179 | intval() of a string: leading white space, an optional sign, then the value of the leading digits, 0 when there are none |
| `PhpStrings.TrimLeftOf` | rule-tables/R6/convert_rule_tables.php:179 | the text without its leading characters from a given set (intval's skip of leading white space) |
| `PhpStrings.TrimRightOf` | natural-language-rules/convert_qanda_txt_to_md.php:118 | `rtrim($line, "\r\n")`: the text without its trailing characters from a given set |
| `PhpStrings.DecimalValue` | rule-tables/R6/convert_rule_tables.php:179 | the value of a run of ASCII digits, as intval reads it |
| `PhpStrings.IsEmptyString` | rule-tables/R6/convert_master.php:113 | empty() of a string: true for "" and "0" only |
| `PhpStrings.SkipLeft` | rule-tables/R6/convert_rule_tables.php:113 | ltrim's stopping point lies in range and stops at a character not in the strip set |
| `PhpStrings.SkipRightDrops` | central-master/R6/convert_master.php:61 | everything rtrim cuts from the end is in the strip set |
| `PhpStrings.TrimEnds` | rule-tables/R6/convert_rule_tables.php:113 | trim's result neither starts nor ends with space, tab, LF, CR, NUL or VT, and everything removed from either end is one of those six |
| `PhpStrings.TrimOfTrimmed` | rule-tables/R6/convert_rule_tables.php:140 | trim leaves unchanged a string that does not start or end with a strippable character |
| `PhpStrings.TrimIdempotent` | rule-tables/R6/convert_rule_tables.php:113 | trimming twice gives the same result as trimming once |
| `PhpStrings.IndexFrom` | natural-language-rules/convert_qanda_txt_to_md.php:160 | a search from a position finds an occurrence, and none lies between the start position and the one found |
| `PhpStrings.IndexOf` | natural-language-rules/convert_qanda_txt_to_md.php:160 | mb_strpos is false exactly when the needle does not occur; otherwise it is the first occurrence |
| `PhpStrings.ContainsSlice` | natural-language-rules/convert_qanda_txt_to_md.php:92-98 | a needle found in a substring is found in the whole string |
| `PhpStrings.ContainsTrim` | natural-language-rules/convert_qanda_txt_to_md.php:197 | a needle found in the trimmed string is found in the original |
| `PhpStrings.FirstBreak` | rule-tables/R6/convert_rule_tables.php:54 | the first break at or after a position is a break character, or the end |
| `PhpStrings.BeforeFirstBreak` | rule-tables/R6/convert_rule_tables.php:54 | no character before the first break is a break |
| `PhpStrings.SplitNoBreak` | rule-tables/R6/convert_rule_tables.php:54 | no piece of explode/preg_split contains a separator |
| `PhpStrings.SplitJoin` | natural-language-rules/convert_qanda_txt_to_md.php:236 | splitting the implode of separator-free pieces gives the pieces back |
| `PhpStrings.JoinSplit` | rule-tables/R6/convert_master.php:32 | imploding explode's pieces with the same delimiter rebuilds the string |
| `PhpStrings.SplitPieceOffset` | natural-language-rules/convert_qanda_txt_to_md.php:109 | every piece of a split occurs in the string at some offset |
| `PhpStrings.ContainsJoin` | natural-language-rules/convert_qanda_txt_to_md.php:185 | a needle without the delimiter found in an implode is found in one of the pieces |
| `PhpStrings.Without` | natural-language-rules/convert_qanda_txt_to_md.php:268 | removing a character class leaves none of its characters and never lengthens the text |
| `PhpStrings.WithoutAbsent` | natural-language-rules/convert_qanda_txt_to_md.php:268 | removing characters that do not occur changes nothing |
| `PhpStrings.WithoutConcat` | natural-language-rules/convert_qanda_txt_to_md.php:268 | removal distributes over concatenation |
| `PhpStrings.DigitChar` | natural-language-rules/convert_qanda_txt_to_md.php:33-34 | the printed digit reads back as its value |
| `PhpStrings.NatToString` | natural-language-rules/convert_qanda_txt_to_md.php:294 | `%d` prints at least one ASCII digit, and a leading 0 only for zero |
| `PhpStrings.DecimalValueOfNatToString` | natural-language-rules/convert_qanda_txt_to_md.php:294 | the digits `%d` prints read back as the number |
| `PhpStrings.NatToStringInjective` | natural-language-rules/convert_qanda_txt_to_md.php:294 | two numbers with the same `%d` text are equal |
| `PhpStrings.ZeroPad` | natural-language-rules/convert_qanda_txt_to_md.php:85 | `%0Nd` prints only digits, at least N of them |
| `PhpStrings.DecimalValueLeadingZeros` | natural-language-rules/convert_qanda_txt_to_md.php:85 | leading zeros do not change a decimal value |
| `PhpStrings.ZeroPadValue` | natural-language-rules/convert_qanda_txt_to_md.php:85 | `%0Nd` reads back as the number for every width |
| `PhpStrings.KeepAsciiDigits` | natural-language-rules/convert_qanda_txt_to_md.php:74 | preg_replace('/[^0-9]/', '') leaves only ASCII digits and never lengthens the text |
| `PhpStrings.KeepAsciiDigitsOfDigits` | natural-language-rules/convert_qanda_txt_to_md.php:74 | that removal leaves a string of digits unchanged |
| `PhpStrings.LeadingDigits` | rule-tables/R6/convert_rule_tables.php:179 | the digits intval reads are the longest all-digit prefix |
| `PhpStrings.IntValOfNatToString` | rule-tables/R6/convert_rule_tables.php:179 | intval reads back what `%d` printed |
| `PhpStrings.FilterTruthy` | rule-tables/R6/convert_master.php:103 | array_filter keeps no `""` or `"0"` and never adds entries |
| `PhpStrings.FilterTruthyExactly` | rule-tables/R6/convert_master.php:103 | a string survives array_filter exactly when it is in the input and neither `""` nor `"0"` |
| `KeyedWrites.Apply` | natural-language-rules/convert_qanda_txt_to_md.php:297 | after a run of writes, every old file and every written name exists |
| `KeyedWrites.ApplyIsOverlay` | natural-language-rules/convert_qanda_txt_to_md.php:297 | a run of overwrites is the old directory overlaid with the last write per name |
| `KeyedWrites.ApplySnoc` | natural-language-rules/convert_qanda_txt_to_md.php:297 | one more write updates exactly its own name |
| `KeyedWrites.ApplyAppend` | natural-language-rules/convert_qanda_txt_to_md.php:297 | two runs of writes in sequence equal their concatenation |
| `KeyedWrites.LastWriteWins` | rule-tables/R6/convert_rule_tables.php:188-189 | a name holds the content of its last write |
| `KeyedWrites.KeyUntouched` | rule-tables/R6/convert_rule_tables.php:188-189 | a name no write touches keeps its old presence and content |
| `KeyedWrites.ApplyTwice` | natural-language-rules/convert_qanda_txt_to_md.php:297 | performing the same writes twice is the same as once |
| `Qanda.NumeralValue` | natural-language-rules/convert_qanda_txt_to_md.php:70-76 | a captured numeral normalised, stripped to ASCII digits and read by intval |
| `Qanda.IsRegexSpace` | natural-language-rules/convert_qanda_txt_to_md.php:66 | `\s` of a `/u` pattern: category Z, TAB, LF, VT, FF, CR, NEL and U+180E |
| `Qanda.FormatDate` | natural-language-rules/convert_qanda_txt_to_md.php:85 | sprintf('%04d-%02d-%02d') of a date |
| `Qanda.ExtractDateYmd` | natural-language-rules/convert_qanda_txt_to_md.php:61-86 | extract_date_yyyy_mm_dd: the formatted date, or null when there is none |
| `Qanda.IsMarkerLine` | natural-language-rules/convert_qanda_txt_to_md.php:116-121 | a line matching `^問[ 　]*([0-9０-９]+)` |
| `Qanda.MarkerNumber` | natural-language-rules/convert_qanda_txt_to_md.php:130-131 | the question number of a marker line: its numeral read as NumeralValue reads it |
| `Qanda.Lines` | natural-language-rules/convert_qanda_txt_to_md.php:109 | preg_split('/\R/u'): the document's lines |
| `Qanda.QuestionBlocks` | natural-language-rules/convert_qanda_txt_to_md.php:108-152 | split_into_questions: one block per marker line, numbered by the marker and holding its LF-joined lines |
| `Qanda.IsAnswerLine` | natural-language-rules/convert_qanda_txt_to_md.php:167-168 | a line that is 答 or （答） once ASCII and full-width spaces are removed |
| `Qanda.StripThroughMarker` | natural-language-rules/convert_qanda_txt_to_md.php:194 | preg_replace('/^.*?（答）/us', ''): everything after the first （答）, or the text unchanged |
| `Qanda.SplitAtAnswerLine` | natural-language-rules/convert_qanda_txt_to_md.php:162-187 | the fallback split: question and answer are the trimmed lines before and after the first answer line, or the whole block trimmed and "" |
| `Qanda.SplitQA` | natural-language-rules/convert_qanda_txt_to_md.php:158-200 | split_question_answer: the inline split at the first （答） when there is one, else the fallback split |
| `Qanda.HeaderLines` | natural-language-rules/convert_qanda_txt_to_md.php:220-227 | the first eight entries of build_markdown's lines: title, front matter, blank line, `## 質問` |
| `Qanda.Shown` | natural-language-rules/convert_qanda_txt_to_md.php:228 | a question or answer as shown: the text, or (未抽出) when it is empty |
| `Qanda.MarkdownLines` | natural-language-rules/convert_qanda_txt_to_md.php:218-234 | build_markdown's 15 entries |
| `Qanda.FileName` | natural-language-rules/convert_qanda_txt_to_md.php:294 | sprintf('%s_Q%d_%s.md'): the output file name |
| `Qanda.Normalize` | natural-language-rules/convert_qanda_txt_to_md.php:30-39 | the length is kept; each ０-９ becomes the ASCII digit of the same value, U+3000 becomes a space, and every other character is unchanged |
| `Qanda.NormalizeIdempotent` | natural-language-rules/convert_qanda_txt_to_md.php:30-39 | normalising twice equals normalising once |
| `Qanda.Widen` | natural-language-rules/convert_qanda_txt_to_md.php:32-35 | the full-width spelling of a digit string has the same digit values |
| `Qanda.NormalizeWiden` | natural-language-rules/convert_qanda_txt_to_md.php:32-35 | normalising the full-width spelling of a digit string gives the digit string back |
| `Qanda.NumeralValueOfDigits` | natural-language-rules/convert_qanda_txt_to_md.php:70-76 | a numeral of ASCII digits has its decimal value |
| `Qanda.NumeralValueOfWideDigits` | natural-language-rules/convert_qanda_txt_to_md.php:70-76 | a full-width numeral has the same value as its ASCII spelling |
| `Qanda.NumeralValueOfNat` | natural-language-rules/convert_qanda_txt_to_md.php:130-131 | a number printed in ASCII or full-width digits reads back as itself |
| `Qanda.Head` | natural-language-rules/convert_qanda_txt_to_md.php:63 | mb_substr($text, 0, n) is a prefix of at most n characters, exactly n when the text is long enough |
| `Qanda.SkipSpaces` | natural-language-rules/convert_qanda_txt_to_md.php:66 | skipping `\s*` never lengthens the text |
| `Qanda.NumeralField` | natural-language-rules/convert_qanda_txt_to_md.php:66 | the `\s*([0-9０-９]+)\s*<unit>` piece of the date pattern: the captured numeral and what follows the unit, or no match |
| `Qanda.NumeralSpan` | natural-language-rules/convert_qanda_txt_to_md.php:66 | the matched digit run lies within the text |
| `Qanda.EraDateAt` | natural-language-rules/convert_qanda_txt_to_md.php:66 | a date match at a position starts with 令和 |
| `Qanda.FirstEraDateAtReiwa` | natural-language-rules/convert_qanda_txt_to_md.php:66 | a date is found only where 令和 occurs |
| `Qanda.FirstEraDate` | natural-language-rules/convert_qanda_txt_to_md.php:66 | preg_match's scan: the match at the leftmost position at or after i, or none |
| `Qanda.FirstEraDateLeftmost` | natural-language-rules/convert_qanda_txt_to_md.php:66 | the scan finds e exactly when e is matched at some position with no match before it, and finds nothing exactly when no position matches |
| `Qanda.ExtractDate` | natural-language-rules/convert_qanda_txt_to_md.php:61-86 | an extracted date has year above 2018 and positive month and day |
| `Qanda.DateOf` | natural-language-rules/convert_qanda_txt_to_md.php:70-84 | a match gives a date exactly when its three numerals read as positive numbers, and the date is then (2018+Y, M, D) |
| `Qanda.ExtractDateFirstMatch` | natural-language-rules/convert_qanda_txt_to_md.php:63-84 | when the leftmost match in the first 500 characters is at position k, wherever k lies, the result is that match's date |
| `Qanda.ExtractDateNoMatch` | natural-language-rules/convert_qanda_txt_to_md.php:63-68 | with no match anywhere in the first 500 characters, whether or not 令和 occurs, there is no date |
| `Qanda.NoReiwaNoDate` | natural-language-rules/convert_qanda_txt_to_md.php:63-68 | without 令和 in the first 500 characters there is no date |
| `Qanda.SkipSpacesOver` | natural-language-rules/convert_qanda_txt_to_md.php:66 | `\s*` consumes exactly a run of spaces |
| `Qanda.NumeralSpanOver` | natural-language-rules/convert_qanda_txt_to_md.php:66 | `[0-9０-９]+` consumes exactly a run of digits |
| `Qanda.NumeralFieldOf` | natural-language-rules/convert_qanda_txt_to_md.php:66 | a spaced numeral followed by its unit is matched as that numeral |
| `Qanda.EraDateAtOf` | natural-language-rules/convert_qanda_txt_to_md.php:66 | 令和 Y 年 M 月 D 日, with any spaces and half- or full-width digits, matches with its three numerals |
| `Qanda.FirstEraDateAtStart` | natural-language-rules/convert_qanda_txt_to_md.php:66 | a text starting with such a date finds that date first |
| `Qanda.ExtractDateOfEraText` | natural-language-rules/convert_qanda_txt_to_md.php:61-86 | for such a date at the start of the document, ending within the first 500 characters, the result is (2018+Y, M, D) when all three are positive and null otherwise |
| `Qanda.ExtractDateAfterPrefix` | natural-language-rules/convert_qanda_txt_to_md.php:61-86 | for such a date after any text without 令和, ending within the first 500 characters, the result is (2018+Y, M, D) when all three are positive and null otherwise |
| `Qanda.ExtractDateAcrossNel` | natural-language-rules/convert_qanda_txt_to_md.php:66 | 令和, NEL, 6年1月1日 reads as 2024-01-01: NEL counts as `\s` |
| `Qanda.ExtractDateAfterHeading` | natural-language-rules/convert_qanda_txt_to_md.php:61-86 | a notice opening with the line 事務連絡 and then 令和6年4月1日 is dated 2024-04-01 |
| `Qanda.ReiwaWithoutFullDate` | natural-language-rules/convert_qanda_txt_to_md.php:66-68 | 令和６年度改定, which has 令和 and a year but no month, gives no date |
| `Qanda.Plain` | natural-language-rules/convert_qanda_txt_to_md.php:66 | a number printed in ASCII digits is a well-formed field of that value |
| `Qanda.Wide` | natural-language-rules/convert_qanda_txt_to_md.php:66 | a number printed in full-width digits is a well-formed field of that value |
| `Qanda.ExtractDatePrinted` | natural-language-rules/convert_qanda_txt_to_md.php:61-86 | 令和Y年M月D日 in ASCII digits with positive Y, M and D gives year 2018+Y, month M and day D, whatever follows it |
| `Qanda.ExtractDatePrintedWide` | natural-language-rules/convert_qanda_txt_to_md.php:61-86 | the same for full-width digits |
| `Qanda.ExtractDateIgnoresTail` | natural-language-rules/convert_qanda_txt_to_md.php:63 | nothing after the first 500 characters affects the date |
| `Qanda.NatToStringLength` | natural-language-rules/convert_qanda_txt_to_md.php:85 | a number below 10^k prints in at most k digits |
| `Qanda.ZeroPadExact` | natural-language-rules/convert_qanda_txt_to_md.php:85 | a number below 10^w pads to exactly w digits that read back as the number |
| `Qanda.FormatDateReadBack` | natural-language-rules/convert_qanda_txt_to_md.php:85 | `%04d-%02d-%02d` of an in-range date is 10 characters, with digits that read back as year, month and day |
| `Qanda.WithoutAfterPart` | natural-language-rules/convert_qanda_txt_to_md.php:268 | removing dashes from part, dash, rest leaves the part followed by the dash-free rest |
| `Qanda.DateDigitsAreThePaddedFields` | natural-language-rules/convert_qanda_txt_to_md.php:268 | the file-name date is the padded year, month and day without the dashes |
| `Qanda.FirstKeyword` | natural-language-rules/convert_qanda_txt_to_md.php:94-98 | the first keyword in priority order that occurs; none before it occurs; None when none occurs |
| `Qanda.DetectCategory` | natural-language-rules/convert_qanda_txt_to_md.php:91-102 | the category is one of the five names: the first of 医科, 歯科, 調剤, 訪問看護, 共通 in the first 300 characters, else 医科 |
| `Qanda.DentalWhenNoMedical` | natural-language-rules/convert_qanda_txt_to_md.php:94-95 | 歯科 wins when it occurs and 医科 does not |
| `Qanda.DetectCategoryIgnoresTail` | natural-language-rules/convert_qanda_txt_to_md.php:92 | nothing after the first 300 characters affects the category |
| `Qanda.SkipBlanks` | natural-language-rules/convert_qanda_txt_to_md.php:116 | skipping `[ 　]*` never lengthens the line |
| `Qanda.FirstMarker` | natural-language-rules/convert_qanda_txt_to_md.php:118-141 | the first marker line's index is within the lines, or the end |
| `Qanda.FirstMarkerIsFirst` | natural-language-rules/convert_qanda_txt_to_md.php:118-141 | the first marker index holds a marker line, and no earlier line is one |
| `Qanda.Segments` | natural-language-rules/convert_qanda_txt_to_md.php:118-149 | there is one block per marker line |
| `Qanda.SegmentsShape` | natural-language-rules/convert_qanda_txt_to_md.php:118-149 | each block starts with a marker line and holds no other |
| `Qanda.NoMarkerNoFirstMarker` | natural-language-rules/convert_qanda_txt_to_md.php:118-149 | there are no markers exactly when the first marker is past the end |
| `Qanda.SegmentsSnocMarker` | natural-language-rules/convert_qanda_txt_to_md.php:121-136 | a marker line opens a new block |
| `Qanda.SegmentsSnocOther` | natural-language-rules/convert_qanda_txt_to_md.php:137-141 | another line joins the open block, or is dropped before the first marker |
| `Qanda.SegmentsCoverFromFirstMarker` | natural-language-rules/convert_qanda_txt_to_md.php:118-149 | the blocks' lines, in order, are exactly the lines from the first marker on |
| `Qanda.BlocksOf` | natural-language-rules/convert_qanda_txt_to_md.php:124-127 | one result entry per block |
| `Qanda.BlocksOfIndex` | natural-language-rules/convert_qanda_txt_to_md.php:124-127 | entry k is block k's number and joined text |
| `Qanda.LoopStepMarker` | natural-language-rules/convert_qanda_txt_to_md.php:121-136 | a marker line closes the open block and opens a new one, keeping the loop invariant |
| `Qanda.LoopStepOther` | natural-language-rules/convert_qanda_txt_to_md.php:137-141 | another line extends the open block, or is skipped, keeping the loop invariant |
| `Qanda.LoopEnd` | natural-language-rules/convert_qanda_txt_to_md.php:144-149 | closing the open block at the end gives the blocks of the segmentation |
| `Qanda.SplitIntoQuestions` | natural-language-rules/convert_qanda_txt_to_md.php:108-152 | the loop returns the specified blocks, one per marker line |
| `Qanda.TakeLine` | natural-language-rules/convert_qanda_txt_to_md.php:119-141 | one pass of the loop keeps the loop invariant |
| `Qanda.NoMarkersNoBlocks` | natural-language-rules/convert_qanda_txt_to_md.php:108-152 | a text without marker lines has no blocks |
| `Qanda.JoinBlockTexts` | natural-language-rules/convert_qanda_txt_to_md.php:126 | joining the block texts with LF equals joining all their lines with LF |
| `Qanda.BlockTextsRejoin` | natural-language-rules/convert_qanda_txt_to_md.php:118-149 | the block texts joined with LF are the text's lines from the first marker on, joined with LF: no line after the first marker is lost |
| `Qanda.FlattenHolds` | natural-language-rules/convert_qanda_txt_to_md.php:118-149 | every line of every block is among the kept lines |
| `Qanda.BlockLines` | natural-language-rules/convert_qanda_txt_to_md.php:118-149 | block k's text splits into its marker line and body lines; its number is the marker's, and no body line is a marker |
| `Qanda.FirstAnswerLine` | natural-language-rules/convert_qanda_txt_to_md.php:166-172 | the found line is an answer line, and no earlier line is one |
| `Qanda.FirstAnswerLineIs` | natural-language-rules/convert_qanda_txt_to_md.php:166-172 | any index with those two properties is the one the search returns |
| `Qanda.SplitQuestionAnswer` | natural-language-rules/convert_qanda_txt_to_md.php:158-199 | the method, with its search loop, returns the specified split |
| `Qanda.InlineAnswer` | natural-language-rules/convert_qanda_txt_to_md.php:160-199 | with （答） at its first position p, the question is trim(text before p) and the answer is trim(text after the marker) |
| `Qanda.InlineQuestionHasNoMarker` | natural-language-rules/convert_qanda_txt_to_md.php:190-197 | in that case the question holds no （答） |
| `Qanda.LineInText` | natural-language-rules/convert_qanda_txt_to_md.php:164 | a needle in one line is in the text |
| `Qanda.LinesBeforeHaveNoMarker` | natural-language-rules/convert_qanda_txt_to_md.php:181-185 | the fallback question of a text without （答） holds no （答） |
| `Qanda.QuestionHasNoMarker` | natural-language-rules/convert_qanda_txt_to_md.php:158-199 | the question never holds （答） on any path |
| `Qanda.MarkerAfterQuestion` | natural-language-rules/convert_qanda_txt_to_md.php:160 | in question, （答）, answer with a marker-free question, the first marker follows the question |
| `Qanda.InlineSplitRoundTrip` | natural-language-rules/convert_qanda_txt_to_md.php:160-199 | splitting question, （答）, answer gives the trimmed question and answer back |
| `Qanda.AnswerLineSplitRoundTrip` | natural-language-rules/convert_qanda_txt_to_md.php:162-187 | question lines, a line reading 答 and answer lines, joined by LF, split back into the trimmed question lines and the trimmed answer lines, when no line holds （答） or a line break and no question line is an answer line |
| `Qanda.NoMarkerAllQuestion` | natural-language-rules/convert_qanda_txt_to_md.php:173-179 | with no marker and no answer line, the question is the whole trimmed block and the answer is empty |
| `Qanda.Markdown` | natural-language-rules/convert_qanda_txt_to_md.php:205-236 | the Markdown ends in LF |
| `Qanda.MarkdownSections` | natural-language-rules/convert_qanda_txt_to_md.php:205-236 | cut at LF, the Markdown gives the eight header entries, the question's own lines, a blank line and `## 回答`, the answer's own lines, the three closing entries and an empty last piece; only the date, source file and category must be single-line |
| `Qanda.MarkdownReadBack` | natural-language-rules/convert_qanda_txt_to_md.php:220-236 | read line by line, the Markdown has the date on line 1, the category on line 3 and `## 質問` on line 7; the question section rejoins to the question, or to (未抽出) when it is empty; then comes `## 回答`, and the answer section rejoins likewise; the last piece is empty |
| `Qanda.JoinSnocEmpty` | natural-language-rules/convert_qanda_txt_to_md.php:236 | implode with a final empty piece equals implode plus LF |
| `Qanda.FileNameParts` | natural-language-rules/convert_qanda_txt_to_md.php:294 | the file name splits at `_` into the date digits, `Q<n>` and `<category>.md` |
| `Qanda.FileNameInjective` | natural-language-rules/convert_qanda_txt_to_md.php:294 | different (date, number, category) triples give different file names |
| `QandaMain.ReplaceCr` | natural-language-rules/convert_qanda_txt_to_md.php:260 | str_replace("\r", "\n"): every CR becomes LF |
| `QandaMain.DateField` | natural-language-rules/convert_qanda_txt_to_md.php:262-266 | the date written into the Markdown: the formatted date, or 0000-00-00 |
| `QandaMain.DateForName` | natural-language-rules/convert_qanda_txt_to_md.php:263-269 | the date in the file name: the formatted date without dashes, or 00000000 |
| `QandaMain.DocumentText` | natural-language-rules/convert_qanda_txt_to_md.php:253-260 | the text of a readable document after CRLF and CR are replaced by LF |
| `QandaMain.Convert` | natural-language-rules/convert_qanda_txt_to_md.php:253-299 | one document: skipped when empty or unreadable, skipped when it has no question, otherwise one write per block |
| `QandaMain.ReplaceCrLf` | natural-language-rules/convert_qanda_txt_to_md.php:260 | replacing CRLF never lengthens the text |
| `QandaMain.NormalizeEol` | natural-language-rules/convert_qanda_txt_to_md.php:260 | the normalised text holds no CR and is no longer than the input |
| `QandaMain.ReplaceCrLfPrefix` | natural-language-rules/convert_qanda_txt_to_md.php:260 | a CR-free prefix passes through the CRLF replacement unchanged |
| `QandaMain.ReplaceCrConcat` | natural-language-rules/convert_qanda_txt_to_md.php:260 | CR replacement distributes over concatenation |
| `QandaMain.NormalizeEolWithoutCr` | natural-language-rules/convert_qanda_txt_to_md.php:260 | a text without CR is unchanged |
| `QandaMain.NormalizeEolIdempotent` | natural-language-rules/convert_qanda_txt_to_md.php:260 | normalising twice equals normalising once |
| `QandaMain.NormalizeEolBreak` | natural-language-rules/convert_qanda_txt_to_md.php:260 | CRLF, a lone LF, or a CR not followed by LF after a CR-free prefix becomes one LF |
| `QandaMain.NormalizeEolLeadingBreak` | natural-language-rules/convert_qanda_txt_to_md.php:260 | the same for a break at the start |
| `QandaMain.NormalizeEolStep` | natural-language-rules/convert_qanda_txt_to_md.php:260 | the first line break becomes one LF, and the rest is normalised on its own |
| `QandaMain.NormalizeEolAt` | natural-language-rules/convert_qanda_txt_to_md.php:260 | the same at a given break position |
| `QandaMain.NormalizeEolJoinsLines` | natural-language-rules/convert_qanda_txt_to_md.php:260 | the normalised text is the text's CRLF/CR/LF lines joined with LF |
| `QandaMain.NormalizeEolKeepsLines` | natural-language-rules/convert_qanda_txt_to_md.php:260 | splitting the normalised text at LF gives the original's CRLF/CR/LF lines |
| `QandaMain.DateForNameIsDateFieldWithoutDashes` | natural-language-rules/convert_qanda_txt_to_md.php:262-269 | the file-name date is always the metadata date without its dashes, for found and missing dates alike |
| `QandaMain.DateForNameDigits` | natural-language-rules/convert_qanda_txt_to_md.php:262-269 | the file-name date is at least 8 ASCII digits |
| `QandaMain.CategoryHasNoUnderscore` | natural-language-rules/convert_qanda_txt_to_md.php:271 | no category holds `_`, so the file name's fields can be told apart |
| `QandaMain.QuestionWrites` | natural-language-rules/convert_qanda_txt_to_md.php:279-299 | one write per question |
| `QandaMain.QuestionWritesIndex` | natural-language-rules/convert_qanda_txt_to_md.php:279-299 | write k is question k's file name and Markdown |
| `QandaMain.QuestionWritesSnoc` | natural-language-rules/convert_qanda_txt_to_md.php:279-299 | one more question adds one write at the end |
| `QandaMain.ConvertOutcome` | natural-language-rules/convert_qanda_txt_to_md.php:253-277 | a document is skipped as unreadable exactly when it is missing or empty, and skipped as question-less exactly when it has no marker line; otherwise it yields one write per marker line |
| `QandaMain.ConvertedWrite` | natural-language-rules/convert_qanda_txt_to_md.php:279-297 | write k of a converted document is question k rendered with the document's date, file-name date and category |
| `QandaMain.UndatedDocument` | natural-language-rules/convert_qanda_txt_to_md.php:263-294 | without a date, the file name is `00000000_Q<n>_<category>.md` and the Markdown's date line is `date: 0000-00-00` |
| `QandaMain.MarkdownHead` | natural-language-rules/convert_qanda_txt_to_md.php:220-221 | the Markdown starts with `# Q<n>` and the date line |
| `QandaMain.LastBlockOfNumberWins` | natural-language-rules/convert_qanda_txt_to_md.php:294-297 | the file of a question whose number does not recur later in the document holds that question's Markdown |
| `QandaMain.RerunChangesNothing` | natural-language-rules/convert_qanda_txt_to_md.php:249-302 | running the conversion again on the same documents leaves the directory unchanged |
| `QandaMain.OutputDirectory.constructor` | natural-language-rules/convert_qanda_txt_to_md.php:23-25 | the directory starts with the given files |
| `QandaMain.OutputDirectory.Put` | natural-language-rules/convert_qanda_txt_to_md.php:297 | file_put_contents replaces that one file's content |
| `QandaMain.ConvertDocument` | natural-language-rules/convert_qanda_txt_to_md.php:249-302 | the per-document pass returns the specified outcome and performs exactly its writes |
| `QandaMain.WriteQuestions` | natural-language-rules/convert_qanda_txt_to_md.php:279-299 | the per-question loop performs exactly the specified writes, in order |
| `QandaMain.ConvertAll` | natural-language-rules/convert_qanda_txt_to_md.php:243-302 | with no input, the status is 1 and nothing is written; otherwise the status is 0 and every document's writes are performed in order |
| `RuleJson.DirName` | rule-tables/R6/convert_rule_tables.php:17-43 | the output directory of each category: the five `$tables` keys |
| `RuleJson.DirNameInjective` | rule-tables/R6/convert_rule_tables.php:80 | different categories have different output directories |
| `RuleJson.CellOr` | rule-tables/R6/convert_rule_tables.php:112 | `$cols[$i] ?? $default`: the cell when the row is long enough, the default otherwise |
| `RuleJson.Cell` | rule-tables/R6/convert_rule_tables.php:126-127 | `$cols[$i] ?? ""` |
| `RuleJson.Flag` | rule-tables/R6/convert_rule_tables.php:128-132 | `($cols[$i] ?? "") === "1"`: true exactly for the cell "1" |
| `RuleJson.WalkN` | rule-tables/R6/convert_rule_tables.php:148-156 | the entries of the first n visits of `for ($i = from; $i < count($cols); $i += gap)`, in order, a skipped visit adding nothing |
| `RuleJson.Walk` | rule-tables/R6/convert_rule_tables.php:139-156 | what the whole stride-1 or stride-2 loop collects (also lines 176-184 here and rule-tables/R6/convert_master.php:112-122, 145-155) |
| `RuleJson.VisitAtLeast` | rule-tables/R6/convert_rule_tables.php:148 | the m-th visit of a stride loop is at column m or beyond |
| `RuleJson.WalkStops` | rule-tables/R6/convert_rule_tables.php:148 | visits past the end of the row add nothing |
| `RuleJson.WalkSound` | rule-tables/R6/convert_rule_tables.php:148-156 | every collected entry comes from a visited column whose step yields it |
| `RuleJson.WalkComplete` | rule-tables/R6/convert_rule_tables.php:148-156 | every visited column whose step yields an entry contributes it |
| `RuleJson.WalkExactly` | rule-tables/R6/convert_rule_tables.php:148-156 | an entry is collected exactly when some visited column yields it |
| `RuleJson.WalkLength` | rule-tables/R6/convert_rule_tables.php:148-156 | at most one entry per visit |
| `RuleJson.CollectWalk` | rule-tables/R6/convert_rule_tables.php:148-156 | the stride loop, which skips `continue` visits, collects the specified walk |
| `RuleJson.RecordStore.constructor` | rule-tables/R6/convert_rule_tables.php:80-81 | the store starts with the given records |
| `RuleJson.RecordStore.Save` | rule-tables/R6/convert_rule_tables.php:188-189 | save_json replaces the record at (category, code) and nothing else |
| `RuleTables.Tables` | rule-tables/R6/convert_rule_tables.php:17-43 | the five configured tables with their raw files in order and code_index 1, 2, 1, 2, 1 |
| `RuleTables.ContentLines` | rule-tables/R6/convert_rule_tables.php:54 | the trimmed content cut at CRLF, CR or LF |
| `RuleTables.CsvRows` | rule-tables/R6/convert_rule_tables.php:51-61 | csv_to_array_sjis: the non-empty lines, parsed |
| `RuleTables.DataRows` | rule-tables/R6/convert_rule_tables.php:106-107 | the rows after the header row |
| `RuleTables.RowCode` | rule-tables/R6/convert_rule_tables.php:112-113 | the code cell trimmed, "" when the row is too short |
| `RuleTables.IncludeAt` | rule-tables/R6/convert_rule_tables.php:139-142 | one inclusive step: the trimmed cell, skipped when blank |
| `RuleTables.ExclusiveAt` | rule-tables/R6/convert_rule_tables.php:148-155 | one exclusive step: a non-blank trimmed target with the trimmed next cell, or same_day, as its kind |
| `RuleTables.CountLimitAt` | rule-tables/R6/convert_rule_tables.php:176-183 | one count-limits step: a non-blank trimmed unit with intval of the next cell, or 0, as its maximum |
| `RuleTables.BodyFor` | rule-tables/R6/convert_rule_tables.php:119-185 | the record's fields for each of the five categories |
| `RuleTables.ParsedRows` | rule-tables/R6/convert_rule_tables.php:55-59 | no more rows than lines |
| `RuleTables.CsvToArraySjis` | rule-tables/R6/convert_rule_tables.php:51-61 | the loop returns the parsed non-empty lines of the trimmed content, cut at CRLF, CR or LF |
| `RuleTables.NoRowsAllEmpty` | rule-tables/R6/convert_rule_tables.php:56-59 | there are no rows exactly when every line is empty |
| `RuleTables.NoRowsIffBlank` | rule-tables/R6/convert_rule_tables.php:54-60 | a file has no rows exactly when its trimmed content is empty |
| `RuleTables.RecordOf` | rule-tables/R6/convert_rule_tables.php:112-185 | a row yields no record exactly when its trimmed code cell (`""` if missing) is empty; a record carries that code and its category's fields |
| `RuleTables.SupplementalFlags` | rule-tables/R6/convert_rule_tables.php:125-133 | each flag is true exactly when its column (5 to 9) exists and is `"1"`; category and sub-category are columns 3 and 4, or `""` |
| `RuleTables.IncludesExactly` | rule-tables/R6/convert_rule_tables.php:138-143 | a code is included exactly when it is the non-empty trim of some cell after the code |
| `RuleTables.IncludesTrimmed` | rule-tables/R6/convert_rule_tables.php:140-141 | included codes are non-empty and already trimmed |
| `RuleTables.ExclusiveAtCells` | rule-tables/R6/convert_rule_tables.php:149-155 | a pair is read at a column exactly when the trimmed target there is non-empty and the type is the trimmed next cell, or `same_day` when that cell is absent |
| `RuleTables.ExclusiveEntries` | rule-tables/R6/convert_rule_tables.php:147-156 | the exclusive list holds exactly those pairs at the stride-2 columns from code_index+1 |
| `RuleTables.CountLimitEntries` | rule-tables/R6/convert_rule_tables.php:175-184 | the count-limits list holds exactly the (trimmed non-empty unit, intval of the next cell or 0) pairs at the stride-2 columns |
| `RuleTables.InpatientFields` | rule-tables/R6/convert_rule_tables.php:160-171 | ward type, nurse ratio, age and severity come from columns 3, 4, 6 and 7; doctor presence is column 5 being `"1"`; there is no exclusions key |
| `RuleTables.BuildRecord` | rule-tables/R6/convert_rule_tables.php:109-185 | the per-row body, with its loops, builds the specified record |
| `RuleTables.RowWritesSnoc` | rule-tables/R6/convert_rule_tables.php:109-190 | one more row adds its save at the end |
| `RuleTables.LastRowWins` | rule-tables/R6/convert_rule_tables.php:188-189 | the record of a row whose code does not recur later is the one stored under that code |
| `RuleTables.UncarriedCodeNotSaved` | rule-tables/R6/convert_rule_tables.php:112-117 | a code no row carries is neither created nor changed |
| `RuleTables.ConvertRows` | rule-tables/R6/convert_rule_tables.php:109-190 | the row loop performs exactly the saves of its rows, in order |
| `RuleTables.ConvertFile` | rule-tables/R6/convert_rule_tables.php:90-107 | a missing file and a file without rows are skipped; otherwise the header row is dropped and the other rows are saved |
| `RuleTables.ConvertTable` | rule-tables/R6/convert_rule_tables.php:84-103 | a table's files are converted in order |
| `RuleTables.ConvertTables` | rule-tables/R6/convert_rule_tables.php:69-94 | a table without a schema is skipped, and the others are converted in order |
| `RuleTables.ConvertRuleTables` | rule-tables/R6/convert_rule_tables.php:17-43 | the whole run converts the five configured tables |
| `RuleMaster.MasterTables` | rule-tables/R6/convert_master.php:17-23 | the five configured tables with their raw files in order |
| `RuleMaster.MasterLines` | rule-tables/R6/convert_master.php:32 | the trimmed content cut at LF only |
| `RuleMaster.MasterCode` | rule-tables/R6/convert_master.php:82-83 | column 0 as it stands, "" when the row has none |
| `RuleMaster.CommaList` | rule-tables/R6/convert_master.php:103 | array_filter(explode(',', cell)): the comma-separated items that are not empty() |
| `RuleMaster.IncludedIn` | rule-tables/R6/convert_master.php:104-106 | column 2 when it exists and is not empty() |
| `RuleMaster.ExclusiveStep` | rule-tables/R6/convert_master.php:112-121 | one exclusive step: a target that is not empty(), with the next cell, or same_day, as its kind |
| `RuleMaster.CountLimitStep` | rule-tables/R6/convert_master.php:145-154 | one count-limits step: a unit that is not empty(), with intval of the next cell, or 0, as its maximum |
| `RuleMaster.MasterBody` | rule-tables/R6/convert_master.php:85-156 | the record's fields for each of the five categories |
| `RuleMaster.MasterRows` | rule-tables/R6/convert_master.php:29-39 | csv_to_array's result: the non-empty LF-separated lines of the trimmed content, each parsed, in order |
| `RuleMaster.CsvToArray` | rule-tables/R6/convert_master.php:29-39 | the loop returns the parsed non-empty LF-separated lines of the trimmed content |
| `RuleMaster.MasterLinesJoin` | rule-tables/R6/convert_master.php:32 | the lines hold no LF, and joined with LF they are the trimmed content, so any CR inside a line stays in it |
| `RuleMaster.MasterNoRowsIffBlank` | rule-tables/R6/convert_master.php:32-37 | a file has no rows exactly when its trimmed content is empty |
| `RuleMaster.MasterRecord` | rule-tables/R6/convert_master.php:82-156 | a row yields no record exactly when column 0 is missing or `""`; a record carries column 0 untrimmed and its category's fields |
| `RuleMaster.MasterSupplementalFields` | rule-tables/R6/convert_master.php:91-98 | category and sub-category are columns 1 and 2, or `""`; each flag is true exactly when its column (3 to 7) exists and is `"1"` |
| `RuleMaster.CommaListExactly` | rule-tables/R6/convert_master.php:103 | a list entry is exactly a comma-separated piece of the cell that is neither `""` nor `"0"`, and holds no comma |
| `RuleMaster.MasterInclusiveFields` | rule-tables/R6/convert_master.php:103-106 | includes is the filtered comma list of column 1; included_in is present exactly when column 2 exists and is neither `""` nor `"0"`, and is then column 2 |
| `RuleMaster.MasterExclusiveEntries` | rule-tables/R6/convert_master.php:110-122 | the exclusive list holds exactly the (target, type) pairs at the stride-2 columns from 1 whose target is neither `""` nor `"0"`, with type the next cell or `same_day` when absent |
| `RuleMaster.MasterCountLimitEntries` | rule-tables/R6/convert_master.php:143-155 | the count-limits list holds exactly the (unit, intval of the next cell or 0) pairs at the stride-2 columns from 1 whose unit is neither `""` nor `"0"` |
| `RuleMaster.MasterInpatientFields` | rule-tables/R6/convert_master.php:126-139 | ward type, nurse ratio, age and severity are columns 1, 2, 4 and 5; doctor presence is column 3 being `"1"`; exclusions is the filtered comma list of column 6 |
| `RuleMaster.BuildMasterRecord` | rule-tables/R6/convert_master.php:79-156 | the per-row body, with its loops, builds the specified record |
| `RuleMaster.MasterRowWritesSnoc` | rule-tables/R6/convert_master.php:79-162 | one more row adds its save at the end |
| `RuleMaster.MasterLastRowWins` | rule-tables/R6/convert_master.php:160-161 | the record of a row whose code does not recur later is the one stored under that code |
| `RuleMaster.MasterUncarriedCodeNotSaved` | rule-tables/R6/convert_master.php:82-83 | a code no row carries is neither created nor changed |
| `RuleMaster.ConvertMasterRows` | rule-tables/R6/convert_master.php:79-162 | the row loop performs exactly the saves of its rows, in order |
| `RuleMaster.ConvertMasterFile` | rule-tables/R6/convert_master.php:64-77 | a missing file is skipped; otherwise the first row is dropped and the other rows are saved |
| `RuleMaster.MasterTableWritesSnoc` | rule-tables/R6/convert_master.php:63-69 | one more file adds its saves at the end |
| `RuleMaster.ConvertMasterTable` | rule-tables/R6/convert_master.php:61-69 | a table's files are converted in order |
| `RuleMaster.ConvertMasterTables` | rule-tables/R6/convert_master.php:47-61 | a table without a schema is skipped, and the others are converted in order |
| `RuleMaster.ConvertMaster` | rule-tables/R6/convert_master.php:17-23 | the whole run converts the five configured tables |
| `CentralMaster.Masters` | central-master/R6/convert_master.php:16-24 | the seven configured masters: each key with its raw file |
| `CentralMaster.OutPath` | central-master/R6/convert_master.php:34 | the output file of a master: its key with `.csv` |
| `CentralMaster.IsCsvSource` | central-master/R6/convert_master.php:56 | substr($srcFile, -4) === '.csv'; a name shorter than four characters never matches |
| `CentralMaster.Quote` | central-master/R6/convert_master.php:90 | a value in double quotes with its inner quotes doubled |
| `CentralMaster.RowLine` | central-master/R6/convert_master.php:89-94 | an output line: the quoted values joined by "," and ended by LF |
| `CentralMaster.HeaderLine` | central-master/R6/convert_master.php:53 | the header line: the names joined by `","` inside one pair of quotes, unescaped, ended by LF |
| `CentralMaster.CellAt` | central-master/R6/convert_master.php:85 | `$cols[$index] ?? ""` |
| `CentralMaster.Columns` | central-master/R6/convert_master.php:63-67 | the raw columns: str_getcsv for a CSV source, otherwise the tab-separated pieces |
| `CentralMaster.FieldValue` | central-master/R6/convert_master.php:71-86 | one property: the encoded line for raw_record, "" when unmapped, otherwise the mapped cell |
| `CentralMaster.LineValues` | central-master/R6/convert_master.php:59-86 | the values of a raw line: right-trimmed, split into columns, one value per property |
| `CentralMaster.NormalizedText` | central-master/R6/convert_master.php:50-95 | the whole normalized file: the header line, then one row line per raw line |
| `CentralMaster.DoubleQuotes` | central-master/R6/convert_master.php:90 | doubling quotes never shortens a value |
| `CentralMaster.DoubleQuotesPaired` | central-master/R6/convert_master.php:90 | after doubling, quotes come only in adjacent pairs, so no run of quotes has odd length |
| `CentralMaster.DoubleQuotesNoQuote` | central-master/R6/convert_master.php:90 | a value without quotes is unchanged |
| `CentralMaster.Escaped` | central-master/R6/convert_master.php:89-92 | one escaped field per value |
| `CentralMaster.ReadBody` | central-master/R6/convert_master.php:89-92 | the RFC 4180 reader of a quoted field's body consumes input |
| `CentralMaster.ReadFields` | central-master/R6/convert_master.php:94 | the reader of one record consumes input |
| `CentralMaster.ReadBodyDoubled` | central-master/R6/convert_master.php:90 | un-escaping a doubled value and its closing quote gives the value back |
| `CentralMaster.ReadQuote` | central-master/R6/convert_master.php:90 | a quoted field opens with a quote, and its body reads back as the value |
| `CentralMaster.ReadLastField` | central-master/R6/convert_master.php:94 | a quoted field before LF reads back as the record's last field |
| `CentralMaster.ReadNextField` | central-master/R6/convert_master.php:94 | a quoted field before a comma reads back ahead of the fields that follow |
| `CentralMaster.ReadRowLine` | central-master/R6/convert_master.php:89-94 | an output row reads back as exactly its values, and the reader stops after its LF |
| `CentralMaster.RowsTextSnoc` | central-master/R6/convert_master.php:94 | one more record appends its row line |
| `CentralMaster.ReadRowsText` | central-master/R6/convert_master.php:59-95 | a file of output rows reads back as exactly its records |
| `CentralMaster.HeaderQuotesEachName` | central-master/R6/convert_master.php:53 | for quote-free names, the header's implode('","') form quotes each name |
| `CentralMaster.HeaderIsRow` | central-master/R6/convert_master.php:53 | for at least one quote-free name, the header is the row of the names, and reads back as them |
| `CentralMaster.RowValues` | central-master/R6/convert_master.php:71-86 | one value per schema property, in schema order, each the property's field value |
| `CentralMaster.ProjectRow` | central-master/R6/convert_master.php:69-86 | the property loop builds the specified values |
| `CentralMaster.ConvertLine` | central-master/R6/convert_master.php:61-94 | the per-line body produces the row line of the line's values |
| `CentralMaster.LineFields` | central-master/R6/convert_master.php:73-85 | raw_record gets the encoding of the right-trimmed line; an unmapped property gets `""`; a mapped one gets its column, or `""` when the index is out of range |
| `CentralMaster.TabColumns` | central-master/R6/convert_master.php:66 | a tab-separated line's columns hold no tab and join back into the line |
| `CentralMaster.AllMastersAreCsv` | central-master/R6/convert_master.php:56 | every configured source name ends in `.csv`, so every master is read with the CSV parser |
| `CentralMaster.Records` | central-master/R6/convert_master.php:59-95 | one record per raw line, blank lines included, each the values of its line |
| `CentralMaster.NormalizedReadsBack` | central-master/R6/convert_master.php:53-95 | for at least one quote-free property name, the output file reads back as the header names followed by one record per raw line |
| `CentralMaster.NormalizedDir.constructor` | central-master/R6/convert_master.php:14 | the directory starts with the given files |
| `CentralMaster.NormalizedDir.Open` | central-master/R6/convert_master.php:50 | fopen(.., 'w') empties that one file |
| `CentralMaster.NormalizedDir.Write` | central-master/R6/convert_master.php:94 | fwrite appends to that one file |
| `CentralMaster.RowsSnoc` | central-master/R6/convert_master.php:59-95 | one more raw line appends its row line |
| `CentralMaster.ConvertMasterFile` | central-master/R6/convert_master.php:47-97 | the output file of a master becomes exactly its normalized text, and nothing else changes |
| `CentralMaster.WriteLines` | central-master/R6/convert_master.php:59-95 | the per-line loop appends exactly the row lines of all raw lines, in order |
| `CentralMaster.WriteLine` | central-master/R6/convert_master.php:61-94 | one pass appends the row line of its raw line |
| `CentralMaster.ConvertMasters` | central-master/R6/convert_master.php:30-100 | a master whose schema or raw file is missing is skipped; every other master's output file is written, in order |
| `CentralMaster.ConvertCentralMasters` | central-master/R6/convert_master.php:16-24 | the whole run converts the seven configured masters |

## Left out

- File-system plumbing is not modelled: `glob`, `file_exists`, `is_dir`, `mkdir`, `fopen` failure, `fclose`, echo and STDERR logging. A directory listing is an input sequence, a file's content is an `Option` (None when missing or unreadable), and the output directories are maps.
- Shift_JIS decoding (`mb_convert_encoding`) and `mb_internal_encoding` are not modelled: text arrives as already-decoded code points. The byte-level `uniord` helper is replaced by its effect, the digit value of ０-９.
- `str_getcsv` is a parameter `parse`, and `base64_encode` is a parameter `encode`. `json_decode` of the schema and mapping files is not modelled: the property names, the mapping (a map from master key to property name to column index) and the presence of each schema are parameters. `json_encode` is not modelled: a record is a datatype holding the JSON object's fields.
- The `$schema` that both rule-table converters load is never used by them, so it is not modelled. Only whether the schema file exists matters.
- `rule-tables/R6/convert_master.php` reads `$rows[0]` without checking that the file had any row. On an empty file PHP only warns and converts nothing, which is what the model does; the warning is not modelled.
- `RuleMaster.CommaListExactly`: `array_filter` keeps the original array keys, so `json_encode` may print a filtered list as an object. The model keeps only the filtered values, in order.
- `RuleMaster.MasterInclusiveFields`: `includes` is the filtered values in order; the array keys `array_filter` keeps are not modelled.
- `RuleMaster.MasterInpatientFields`: `exclusions` is the filtered values in order; the array keys `array_filter` keeps are not modelled.
- `PhpStrings.IntVal`, `PhpStrings.IntValOfNatToString`: intval saturates at the platform's integer limits and reads exponent notation (`"1e3"`) in numeric strings. The model reads only an optional sign and the leading digits, as unbounded integers.
- `Qanda.NumeralValue`, `Qanda.NumeralValueOfNat`: question and date numbers are unbounded naturals; intval's saturation on very long digit runs is not modelled.
- The PCRE engine is not modelled. The three patterns (the Reiwa date, the `問N` marker and the answer line) are hand-written matchers. With the `/u` flag `\s` matches Unicode white space: category Z (U+3000 included), `\h` (which adds TAB and U+180E) and `\v` (LF, VT, FF, CR and NEL), and the date matcher follows that reading. Line splitting with `\R` cuts at CRLF, LF, VT, FF, CR, NEL, U+2028 and U+2029.
- trim's default character set is space, tab, LF, CR, NUL and vertical tab; it does not strip U+3000. `rtrim($line)` in the central-master converter uses the same set, so trailing spaces and tabs of a raw line are dropped too, not only its line end.
- The Markdown layout has 15 entries followed by a final LF, as `build_markdown` builds it. The question and the answer may span several lines, so splitting the Markdown at LF gives 14 pieces plus the lines of the question and of the answer, the last piece empty.
- `Qanda.MarkdownSections` and `Qanda.MarkdownReadBack` are stated for a date, source file and category without LF. The date is always a formatted date or 0000-00-00 and the category one of five fixed words; a source file name with an LF in it is not covered.
- Month and day of an extracted date are not checked against calendar ranges, as in the source. `Qanda.FormatDateReadBack` is stated only for a year below 10000 and a month and day below 100, where `%04d`/`%02d` do not widen.
- Duplicate or unordered question numbers are kept in the blocks, as in the source. `QandaMain.LastBlockOfNumberWins` states which file survives when a number repeats within a document.
- `CentralMaster.NormalizedReadsBack` and `CentralMaster.HeaderIsRow` are stated for at least one property whose names hold no `"`. Header names are written unescaped, so with a quote in a name the header is not well-formed CSV. With no properties at all, the header is `""` and every row is an empty line.
- The central-master mapping values are modelled as integers. A non-integer JSON value in the mapping file is not modelled.
- Concurrency and partially written files are not modelled: every write is atomic.
