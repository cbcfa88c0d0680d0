/**
 * The regulatory Q&A text extractor of natural-language-rules/convert_qanda_txt_to_md.php:
 * full-width digit normalisation, Reiwa-era date extraction, category detection,
 * segmentation into 問N blocks, the question/answer split at （答）, Markdown rendering
 * and the output file name.
 */
module Qanda {
  import opened Wrappers
  import opened PhpStrings

  // ===========================================================================
  // normalize_numbers_and_spaces
  // ===========================================================================

  const IdeographicSpace: char := '\U{3000}'

  /** The full-width digits ０ (U+FF10) to ９ (U+FF19). */
  predicate IsWideDigit(c: char) {
    '０' <= c <= '９'
  }

  function WideDigitValue(c: char): nat
    requires IsWideDigit(c)
  {
    c as int - '０' as int
  }

  /** The digit class [0-9０-９] of the source's patterns. */
  predicate IsNumeral(c: char) {
    IsAsciiDigit(c) || IsWideDigit(c)
  }

  function NormalizeChar(c: char): char {
    if IsWideDigit(c) then DigitChar(WideDigitValue(c))
    else if c == IdeographicSpace then ' '
    else c
  }

  /** normalize_numbers_and_spaces: full-width digits become the ASCII digit of the same value,
      U+3000 becomes a space, everything else is kept, and the length does not change. */
  function Normalize(s: string): (r: string)
    ensures |r| == |s|
    ensures forall i :: 0 <= i < |s| && IsWideDigit(s[i]) ==>
      IsAsciiDigit(r[i]) && DigitValue(r[i]) == WideDigitValue(s[i])
    ensures forall i :: 0 <= i < |s| && s[i] == IdeographicSpace ==> r[i] == ' '
    ensures forall i :: 0 <= i < |s| && !IsWideDigit(s[i]) && s[i] != IdeographicSpace ==> r[i] == s[i]
  {
    if s == [] then [] else [NormalizeChar(s[0])] + Normalize(s[1..])
  }

  /** Normalising twice is normalising once. */
  lemma NormalizeIdempotent(s: string)
    ensures Normalize(Normalize(s)) == Normalize(s)
  {
    var n := Normalize(s);
    assert forall i :: 0 <= i < |n| ==> !IsWideDigit(n[i]) && n[i] != IdeographicSpace;
  }

  /** The full-width spelling of a string of ASCII digits. */
  function Widen(s: string): (r: string)
    requires AllAsciiDigits(s)
    ensures |r| == |s|
    ensures forall i :: 0 <= i < |s| ==> IsWideDigit(r[i]) && WideDigitValue(r[i]) == DigitValue(s[i])
  {
    seq(|s|, i requires 0 <= i < |s| => ('０' as int + DigitValue(s[i])) as char)
  }

  /** Normalisation turns the full-width spelling back into the ASCII digits. */
  lemma NormalizeWiden(s: string)
    requires AllAsciiDigits(s)
    ensures Normalize(Widen(s)) == s
  {
    var n := Normalize(Widen(s));
    forall i | 0 <= i < |s|
      ensures n[i] == s[i]
    {
      assert DigitValue(n[i]) == DigitValue(s[i]);
    }
  }

  /** intval(preg_replace('/[^0-9]/', '', normalize_numbers_and_spaces($raw))): how the source
      reads every captured numeral. */
  function NumeralValue(raw: string): nat {
    DecimalValue(KeepAsciiDigits(Normalize(raw)))
  }

  /** A numeral written with ASCII digits reads as its decimal value... */
  lemma NumeralValueOfDigits(s: string)
    requires AllAsciiDigits(s)
    ensures NumeralValue(s) == DecimalValue(s)
  {
    assert Normalize(s) == s;
    KeepAsciiDigitsOfDigits(s);
  }

  /** ...and the same numeral written with full-width digits reads as the same value. */
  lemma NumeralValueOfWideDigits(s: string)
    requires AllAsciiDigits(s)
    ensures NumeralValue(Widen(s)) == DecimalValue(s)
  {
    NormalizeWiden(s);
    KeepAsciiDigitsOfDigits(s);
  }

  /** A printed number, in either width, reads back as the number. */
  lemma NumeralValueOfNat(n: nat)
    ensures NumeralValue(NatToString(n)) == n
    ensures NumeralValue(Widen(NatToString(n))) == n
  {
    NumeralValueOfDigits(NatToString(n));
    NumeralValueOfWideDigits(NatToString(n));
    DecimalValueOfNatToString(n);
  }

  // ===========================================================================
  // extract_date_yyyy_mm_dd
  // ===========================================================================

  const ReiwaOffset: nat := 2018
  const DateSearchLength: nat := 500
  const Reiwa: string := "令和"

  /** mb_substr($s, 0, $n) */
  function Head(s: string, n: nat): (r: string)
    ensures |r| <= n && r <= s
    ensures |s| >= n ==> |r| == n
  {
    if |s| <= n then s else s[..n]
  }

  /** \s of a /u pattern: PHP compiles /u patterns with Unicode properties, so \s is a Unicode
      separator (category Z, which includes U+3000), horizontal white space (\h, which adds TAB
      and U+180E) or vertical white space (\v: LF, VT, FF, CR and NEL). */
  predicate IsRegexSpace(c: char) {
    c == '\t' || c == '\n' || c == '\U{0B}' || c == '\U{0C}' || c == '\r' || c == ' ' ||
    c == '\U{85}' || c == '\U{A0}' || c == '\U{1680}' || c == '\U{180E}' ||
    ('\U{2000}' <= c <= '\U{200A}') ||
    c == '\U{2028}' || c == '\U{2029}' || c == '\U{202F}' || c == '\U{205F}' || c == IdeographicSpace
  }

  /** What is left after the run of \s at the front of `s` (\s* is greedy). */
  function SkipSpaces(s: string): (r: string)
    ensures |r| <= |s|
  {
    if s != [] && IsRegexSpace(s[0]) then SkipSpaces(s[1..]) else s
  }

  /** The length of the run of [0-9０-９] at the front of `s` (the + is greedy). */
  function NumeralSpan(s: string): (n: nat)
    ensures n <= |s|
  {
    if s != [] && IsNumeral(s[0]) then 1 + NumeralSpan(s[1..]) else 0
  }

  /** The pattern piece \s*([0-9０-９]+)\s*<unit> at the front of `s`: the captured numeral and
      what follows <unit>. Each greedy run is followed by a character it cannot contain (a
      digit is not a space and the units are neither), so backtracking cannot find another
      match and this deterministic reading is the regex's. */
  function NumeralField(s: string, unit: char): Option<(string, string)> {
    var t := SkipSpaces(s);
    var n := NumeralSpan(t);
    var u := SkipSpaces(t[n..]);
    if n == 0 || u == [] || u[0] != unit then None else Some((t[..n], u[1..]))
  }

  /** The three numerals captured by 令和\s*(…)\s*年\s*(…)\s*月\s*(…)\s*日. */
  datatype EraDate = EraDate(year: string, month: string, day: string)

  /** The date pattern anchored at the front of `s`. */
  function EraDateAt(s: string): (r: Option<EraDate>)
    ensures r.Some? ==> |s| >= 2 && s[..2] == Reiwa
  {
    if !(|s| >= 2 && s[..2] == Reiwa) then None
    else match NumeralField(s[2..], '年')
      case None => None
      case Some((y, a)) =>
        match NumeralField(a, '月')
        case None => None
        case Some((m, b)) =>
          match NumeralField(b, '日')
          case None => None
          case Some((d, _)) => Some(EraDate(y, m, d))
  }

  /** preg_match: the leftmost match at or after position `i` of `h`. */
  function FirstEraDate(h: string, i: nat): (r: Option<EraDate>)
    requires i <= |h|
    decreases |h| - i
  {
    if i == |h| then None
    else match EraDateAt(h[i..])
      case Some(e) => Some(e)
      case None => FirstEraDate(h, i + 1)
  }

  /** A match is always at an occurrence of 令和. */
  lemma {:induction false} FirstEraDateAtReiwa(h: string, i: nat)
    requires i <= |h|
    ensures FirstEraDate(h, i).Some? ==> Contains(h, Reiwa)
    decreases |h| - i
  {
    if i < |h| {
      if EraDateAt(h[i..]).Some? {
        assert h[i..][..2] == h[i..i + 2];
        assert OccursAt(h, Reiwa, i);
      } else {
        FirstEraDateAtReiwa(h, i + 1);
      }
    }
  }

  /** Positions where the pattern does not match leave the scan's result unchanged. */
  lemma {:induction false} FirstEraDateSkips(h: string, i: nat, k: nat)
    requires i <= k <= |h|
    requires forall j :: i <= j < k ==> EraDateAt(h[j..]).None?
    ensures FirstEraDate(h, i) == FirstEraDate(h, k)
    decreases k - i
  {
    if i < k {
      FirstEraDateSkips(h, i + 1, k);
    }
  }

  /** A found match is a match at some position with none before it. */
  lemma {:induction false} FirstEraDateHasPosition(h: string, i: nat)
    requires i <= |h|
    requires FirstEraDate(h, i).Some?
    ensures exists k :: i <= k < |h| && EraDateAt(h[k..]) == FirstEraDate(h, i) &&
                        forall j :: i <= j < k ==> EraDateAt(h[j..]).None?
    decreases |h| - i
  {
    if EraDateAt(h[i..]).None? {
      FirstEraDateHasPosition(h, i + 1);
      var k :| i + 1 <= k < |h| && EraDateAt(h[k..]) == FirstEraDate(h, i + 1) &&
               forall j :: i + 1 <= j < k ==> EraDateAt(h[j..]).None?;
      assert i <= k < |h| && EraDateAt(h[k..]) == FirstEraDate(h, i);
    }
  }

  /** preg_match reports the leftmost match: the scan finds `e` exactly when `e` is matched at
      some position with no match before it, and finds nothing exactly when no position
      matches. */
  lemma FirstEraDateLeftmost(h: string, i: nat, e: EraDate)
    requires i <= |h|
    ensures FirstEraDate(h, i) == Some(e) <==>
      exists k :: i <= k < |h| && EraDateAt(h[k..]) == Some(e) &&
                  forall j :: i <= j < k ==> EraDateAt(h[j..]).None?
    ensures FirstEraDate(h, i).None? <==> forall k :: i <= k < |h| ==> EraDateAt(h[k..]).None?
  {
    if FirstEraDate(h, i).Some? {
      FirstEraDateHasPosition(h, i);
    } else {
      forall k | i <= k < |h|
        ensures EraDateAt(h[k..]).None?
      {
        if EraDateAt(h[k..]).Some? {
          FirstEraDateSkipsToMatch(h, i, k);
        }
      }
    }
    if exists k :: i <= k < |h| && EraDateAt(h[k..]) == Some(e) &&
                   forall j :: i <= j < k ==> EraDateAt(h[j..]).None? {
      var k :| i <= k < |h| && EraDateAt(h[k..]) == Some(e) &&
               forall j :: i <= j < k ==> EraDateAt(h[j..]).None?;
      FirstEraDateSkips(h, i, k);
    }
    if forall k :: i <= k < |h| ==> EraDateAt(h[k..]).None? {
      FirstEraDateSkips(h, i, |h|);
    }
  }

  /** A match at position k means the scan from i <= k finds something. */
  lemma {:induction false} FirstEraDateSkipsToMatch(h: string, i: nat, k: nat)
    requires i <= k < |h| && EraDateAt(h[k..]).Some?
    ensures FirstEraDate(h, i).Some?
    decreases k - i
  {
    if i < k && EraDateAt(h[i..]).None? {
      FirstEraDateSkipsToMatch(h, i + 1, k);
    }
  }

  /** An absolute calendar date. */
  datatype Date = Date(year: nat, month: nat, day: nat)

  /** extract_date_yyyy_mm_dd before formatting: the first Reiwa date in the first 500
      characters, with Reiwa year Y read as 2018 + Y; none when there is no match or a
      component of the first match is 0. Month and day are not range-checked. */
  function ExtractDate(text: string): (r: Option<Date>)
    ensures r.Some? ==> r.value.year > ReiwaOffset && r.value.month > 0 && r.value.day > 0
  {
    match FirstEraDate(Head(text, DateSearchLength), 0)
    case None => None
    case Some(e) => DateOf(e)
  }

  /** The date a match stands for: Reiwa year Y is 2018 + Y; none when a component reads as 0. */
  function DateOf(e: EraDate): (r: Option<Date>)
    ensures r.Some? <==> NumeralValue(e.year) > 0 && NumeralValue(e.month) > 0 && NumeralValue(e.day) > 0
    ensures r.Some? ==> r.value == Date(ReiwaOffset + NumeralValue(e.year), NumeralValue(e.month), NumeralValue(e.day))
  {
    var y := NumeralValue(e.year);
    var m := NumeralValue(e.month);
    var d := NumeralValue(e.day);
    if y <= 0 || m <= 0 || d <= 0 then None else Some(Date(ReiwaOffset + y, m, d))
  }

  /** The date is that of the leftmost match in the first 500 characters, wherever it lies. */
  lemma ExtractDateFirstMatch(text: string, k: nat)
    requires k < |Head(text, DateSearchLength)|
    requires EraDateAt(Head(text, DateSearchLength)[k..]).Some?
    requires forall j :: 0 <= j < k ==> EraDateAt(Head(text, DateSearchLength)[j..]).None?
    ensures ExtractDate(text) == DateOf(EraDateAt(Head(text, DateSearchLength)[k..]).value)
  {
    FirstEraDateSkips(Head(text, DateSearchLength), 0, k);
  }

  /** With no match anywhere in the first 500 characters, 令和 present or not, there is no date. */
  lemma ExtractDateNoMatch(text: string)
    requires forall k :: 0 <= k < |Head(text, DateSearchLength)| ==>
      EraDateAt(Head(text, DateSearchLength)[k..]).None?
    ensures ExtractDate(text).None?
  {
    FirstEraDateSkips(Head(text, DateSearchLength), 0, |Head(text, DateSearchLength)|);
  }

  /** Without 令和 in the first 500 characters there is no date. */
  lemma NoReiwaNoDate(text: string)
    requires !Contains(Head(text, DateSearchLength), Reiwa)
    ensures ExtractDate(text).None?
  {
    FirstEraDateAtReiwa(Head(text, DateSearchLength), 0);
  }

  /** sprintf('%04d-%02d-%02d', $year, $month, $day) */
  function FormatDate(d: Date): string {
    ZeroPad(d.year, 4) + "-" + ZeroPad(d.month, 2) + "-" + ZeroPad(d.day, 2)
  }

  /** extract_date_yyyy_mm_dd itself: the formatted date, or null. */
  function ExtractDateYmd(text: string): Option<string> {
    match ExtractDate(text)
    case None => None
    case Some(d) => Some(FormatDate(d))
  }

  // --- The date pattern read on text built to match it ---

  predicate AllSpaces(s: string) {
    forall i :: 0 <= i < |s| ==> IsRegexSpace(s[i])
  }

  predicate AllNumerals(s: string) {
    forall i :: 0 <= i < |s| ==> IsNumeral(s[i])
  }

  /** One "\s* numeral \s*" stretch of a date as written. */
  datatype FieldText = FieldText(before: string, numeral: string, after: string)

  predicate WellFormedField(f: FieldText) {
    AllSpaces(f.before) && |f.numeral| >= 1 && AllNumerals(f.numeral) && AllSpaces(f.after)
  }

  function RenderField(f: FieldText, unit: char): string {
    f.before + f.numeral + f.after + [unit]
  }

  /** 令和 Y 年 M 月 D 日 with the given spacing and digits. */
  function EraText(y: FieldText, m: FieldText, d: FieldText): string {
    Reiwa + RenderField(y, '年') + RenderField(m, '月') + RenderField(d, '日')
  }

  lemma {:induction false} SkipSpacesOver(w: string, x: string)
    requires AllSpaces(w)
    requires x == [] || !IsRegexSpace(x[0])
    ensures SkipSpaces(w + x) == x
    decreases |w|
  {
    if w == [] {
      assert w + x == x;
    } else {
      assert (w + x)[1..] == w[1..] + x;
      SkipSpacesOver(w[1..], x);
    }
  }

  lemma {:induction false} NumeralSpanOver(n: string, x: string)
    requires AllNumerals(n)
    requires x == [] || !IsNumeral(x[0])
    ensures NumeralSpan(n + x) == |n|
    decreases |n|
  {
    if n == [] {
      assert n + x == x;
    } else {
      assert (n + x)[1..] == n[1..] + x;
      NumeralSpanOver(n[1..], x);
    }
  }

  /** The field piece of the pattern reads a written field back exactly. */
  lemma NumeralFieldOf(f: FieldText, unit: char, rest: string)
    requires WellFormedField(f) && !IsRegexSpace(unit) && !IsNumeral(unit)
    ensures NumeralField(RenderField(f, unit) + rest, unit) == Some((f.numeral, rest))
  {
    var tail := [unit] + rest;
    var afterNumeral := f.after + tail;
    var t := f.numeral + afterNumeral;
    assert RenderField(f, unit) + rest == f.before + t;
    SkipSpacesOver(f.before, t);
    NumeralSpanOver(f.numeral, afterNumeral);
    assert t[..|f.numeral|] == f.numeral;
    assert t[|f.numeral|..] == afterNumeral;
    SkipSpacesOver(f.after, tail);
  }

  /** The date pattern reads a written date back exactly. */
  lemma EraDateAtOf(y: FieldText, m: FieldText, d: FieldText, rest: string)
    requires WellFormedField(y) && WellFormedField(m) && WellFormedField(d)
    ensures EraDateAt(EraText(y, m, d) + rest) == Some(EraDate(y.numeral, m.numeral, d.numeral))
  {
    var td := RenderField(d, '日') + rest;
    var tm := RenderField(m, '月') + td;
    var ty := RenderField(y, '年') + tm;
    var s := EraText(y, m, d) + rest;
    assert s == Reiwa + ty;
    assert s[..2] == Reiwa && s[2..] == ty;
    NumeralFieldOf(y, '年', tm);
    NumeralFieldOf(m, '月', td);
    NumeralFieldOf(d, '日', rest);
  }

  /** The date search sees a prefix of at most 500 characters in full. */
  lemma HeadKeepsPrefix(e: string, rest: string)
    requires |e| <= DateSearchLength
    ensures Head(e + rest, DateSearchLength) == e + Head(e + rest, DateSearchLength)[|e|..]
  {
  }

  /** A date written at the very start is the first match. */
  lemma FirstEraDateAtStart(y: FieldText, m: FieldText, d: FieldText, rest: string)
    requires WellFormedField(y) && WellFormedField(m) && WellFormedField(d)
    ensures FirstEraDate(EraText(y, m, d) + rest, 0) == Some(EraDate(y.numeral, m.numeral, d.numeral))
  {
    var h := EraText(y, m, d) + rest;
    assert h[0..] == h;
    EraDateAtOf(y, m, d, rest);
  }

  /** A Reiwa date at the start of a document, within the first 500 characters, is found and
      read as 2018 + Y, M, D, whichever digits and spacing it is written with; when a component
      reads as 0 there is no date. */
  lemma ExtractDateOfEraText(y: FieldText, m: FieldText, d: FieldText, rest: string)
    requires WellFormedField(y) && WellFormedField(m) && WellFormedField(d)
    requires |EraText(y, m, d)| <= DateSearchLength
    ensures NumeralValue(y.numeral) > 0 && NumeralValue(m.numeral) > 0 && NumeralValue(d.numeral) > 0 ==>
      ExtractDate(EraText(y, m, d) + rest) ==
        Some(Date(ReiwaOffset + NumeralValue(y.numeral), NumeralValue(m.numeral), NumeralValue(d.numeral)))
    ensures NumeralValue(y.numeral) == 0 || NumeralValue(m.numeral) == 0 || NumeralValue(d.numeral) == 0 ==>
      ExtractDate(EraText(y, m, d) + rest).None?
  {
    var e := EraText(y, m, d);
    HeadKeepsPrefix(e, rest);
    FirstEraDateAtStart(y, m, d, Head(e + rest, DateSearchLength)[|e|..]);
  }

  /** A text without 令和, followed by something starting with 令, holds no match inside the
      text: a match would need 令和 within it or straddling its end. */
  lemma NoMatchBeforeEra(p: string, s: string)
    requires !Contains(p, Reiwa)
    requires |s| >= 1 && s[0] == '令'
    ensures forall j :: 0 <= j < |p| ==> EraDateAt((p + s)[j..]).None?
  {
    var h := p + s;
    forall j | 0 <= j < |p|
      ensures EraDateAt(h[j..]).None?
    {
      if j + 2 <= |p| {
        assert !OccursAt(p, Reiwa, j);
        assert h[j..][..2] == p[j..j + 2];
      } else {
        assert h[j..][..2] == [p[j], s[0]];
      }
    }
  }

  /** A Reiwa date after any text without 令和 (a heading such as 事務連絡, a line break),
      ending within the first 500 characters, is the date found; when a component reads as 0
      there is no date. */
  lemma ExtractDateAfterPrefix(p: string, y: FieldText, m: FieldText, d: FieldText, rest: string)
    requires WellFormedField(y) && WellFormedField(m) && WellFormedField(d)
    requires !Contains(p, Reiwa)
    requires |p + EraText(y, m, d)| <= DateSearchLength
    ensures NumeralValue(y.numeral) > 0 && NumeralValue(m.numeral) > 0 && NumeralValue(d.numeral) > 0 ==>
      ExtractDate(p + EraText(y, m, d) + rest) ==
        Some(Date(ReiwaOffset + NumeralValue(y.numeral), NumeralValue(m.numeral), NumeralValue(d.numeral)))
    ensures NumeralValue(y.numeral) == 0 || NumeralValue(m.numeral) == 0 || NumeralValue(d.numeral) == 0 ==>
      ExtractDate(p + EraText(y, m, d) + rest).None?
  {
    var e := EraText(y, m, d);
    var pe := p + e;
    HeadKeepsPrefix(pe, rest);
    var h := Head(pe + rest, DateSearchLength);
    var tail := h[|pe|..];
    assert h == p + (e + tail);
    assert (e + tail)[0] == '令';
    NoMatchBeforeEra(p, e + tail);
    assert h[|p|..] == e + tail;
    EraDateAtOf(y, m, d, tail);
    ExtractDateFirstMatch(pe + rest, |p|);
    assert p + e + rest == pe + rest;
  }

  /** A number written with ASCII digits and no spacing. */
  function Plain(n: nat): (f: FieldText)
    ensures WellFormedField(f) && NumeralValue(f.numeral) == n
  {
    NumeralValueOfNat(n);
    FieldText("", NatToString(n), "")
  }

  /** A number written with full-width digits and no spacing. */
  function Wide(n: nat): (f: FieldText)
    ensures WellFormedField(f) && NumeralValue(f.numeral) == n
  {
    NumeralValueOfNat(n);
    FieldText("", Widen(NatToString(n)), "")
  }

  /** A date printed as 令和Y年M月D日 at the start of a document reads back as 2018 + Y, M, D... */
  lemma ExtractDatePrinted(y: nat, m: nat, d: nat, rest: string)
    requires y > 0 && m > 0 && d > 0
    requires |EraText(Plain(y), Plain(m), Plain(d))| <= DateSearchLength
    ensures ExtractDate(EraText(Plain(y), Plain(m), Plain(d)) + rest) == Some(Date(ReiwaOffset + y, m, d))
  {
    ExtractDateOfEraText(Plain(y), Plain(m), Plain(d), rest);
  }

  /** ...and so does the same date printed with full-width digits. */
  lemma ExtractDatePrintedWide(y: nat, m: nat, d: nat, rest: string)
    requires y > 0 && m > 0 && d > 0
    requires |EraText(Wide(y), Wide(m), Wide(d))| <= DateSearchLength
    ensures ExtractDate(EraText(Wide(y), Wide(m), Wide(d)) + rest) == Some(Date(ReiwaOffset + y, m, d))
  {
    ExtractDateOfEraText(Wide(y), Wide(m), Wide(d), rest);
  }

  /** The spacing may be any Unicode white space, the line separators NEL and U+2028 included:
      a date whose era and year are on either side of a NEL is still found. */
  lemma ExtractDateAcrossNel(rest: string)
    ensures ExtractDate("令和\U{85}6年1月1日" + rest) == Some(Date(2024, 1, 1))
  {
    var y := FieldText("\U{85}", "6", "");
    var one := FieldText("", "1", "");
    assert EraText(y, one, one) == "令和\U{85}6年1月1日";
    NumeralValueOfDigits("6");
    NumeralValueOfDigits("1");
    assert DecimalValue("6") == 6 && DecimalValue("1") == 1;
    ExtractDateOfEraText(y, one, one, rest);
  }

  lemma HeadingHasNoReiwa()
    ensures !Contains("事務連絡\n", Reiwa)
  {
    var p := "事務連絡\n";
    forall i: nat | i <= |p|
      ensures !OccursAt(p, Reiwa, i)
    {
      if i + 2 <= |p| {
        assert p[i] != '令';
      }
    }
  }

  /** 令和６年 followed by 度 is not the date pattern: no month follows the year. */
  lemma YearWithoutMonth()
    ensures EraDateAt("令和６年度改定").None?
  {
    var t := "令和６年度改定";
    var a := "６年度改定";
    assert t[..2] == Reiwa && t[2..] == a;
    assert SkipSpaces(a) == a;
    assert NumeralSpan(a[1..]) == 0;
    assert NumeralSpan(a) == 1;
    assert SkipSpaces(a[1..]) == a[1..] && a[1..][0] == '年';
    assert a[..1] == "６" && a[1..][1..] == "度改定";
    assert NumeralField(a, '年') == Some(("６", "度改定"));
    assert SkipSpaces("度改定") == "度改定" && NumeralSpan("度改定") == 0;
    assert NumeralField("度改定", '月').None?;
  }

  /** A notice whose date follows a heading line is dated by that date. */
  lemma ExtractDateAfterHeading(rest: string)
    ensures ExtractDate("事務連絡\n令和6年4月1日" + rest) == Some(Date(2024, 4, 1))
  {
    var p := "事務連絡\n";
    HeadingHasNoReiwa();
    var y := FieldText("", "6", "");
    var m := FieldText("", "4", "");
    var d := FieldText("", "1", "");
    assert p + EraText(y, m, d) == "事務連絡\n令和6年4月1日";
    NumeralValueOfDigits("6");
    NumeralValueOfDigits("4");
    NumeralValueOfDigits("1");
    assert DecimalValue("6") == 6 && DecimalValue("4") == 4 && DecimalValue("1") == 1;
    ExtractDateAfterPrefix(p, y, m, d, rest);
  }

  /** 令和 followed by a year but no month (as in 令和６年度改定) is no date. */
  lemma ReiwaWithoutFullDate()
    ensures ExtractDate("令和６年度改定").None?
  {
    var t := "令和６年度改定";
    assert Head(t, DateSearchLength) == t;
    forall k | 0 <= k < |t|
      ensures EraDateAt(t[k..]).None?
    {
      if k == 0 {
        assert t[k..] == t;
        YearWithoutMonth();
      } else {
        assert t[k..][0] == t[k] && t[k] != '令';
      }
    }
    ExtractDateNoMatch(t);
  }

  /** Nothing after the first 500 characters influences the date. */
  lemma ExtractDateIgnoresTail(a: string, b: string)
    requires |a| >= DateSearchLength
    ensures ExtractDate(a + b) == ExtractDate(a)
  {
    assert Head(a + b, DateSearchLength) == Head(a, DateSearchLength);
  }

  function Pow10(k: nat): nat {
    if k == 0 then 1 else 10 * Pow10(k - 1)
  }

  lemma {:induction false} NatToStringLength(n: nat, k: nat)
    requires k >= 1 && n < Pow10(k)
    ensures |NatToString(n)| <= k
  {
    assert Pow10(1) == 10;
    if n >= 10 {
      assert n / 10 < Pow10(k - 1);
      NatToStringLength(n / 10, k - 1);
    }
  }

  lemma ZeroPadExact(n: nat, w: nat)
    requires w >= 1 && n < Pow10(w)
    ensures |ZeroPad(n, w)| == w && DecimalValue(ZeroPad(n, w)) == n
  {
    NatToStringLength(n, w);
    ZeroPadValue(n, w);
  }

  lemma DashedParts(a: string, b: string, c: string)
    requires |a| == 4 && |b| == 2 && |c| == 2
    ensures var s := a + "-" + b + "-" + c;
      |s| == 10 && s[4] == '-' && s[7] == '-' && s[..4] == a && s[5..7] == b && s[8..] == c
  {
  }

  /** For a four-digit year and two-digit month and day the formatted date is YYYY-MM-DD
      and its three digit groups read back as the date. */
  lemma FormatDateReadBack(d: Date)
    requires d.year < 10000 && d.month < 100 && d.day < 100
    ensures var s := FormatDate(d);
      |s| == 10 && s[4] == '-' && s[7] == '-' &&
      AllAsciiDigits(s[..4]) && AllAsciiDigits(s[5..7]) && AllAsciiDigits(s[8..]) &&
      DecimalValue(s[..4]) == d.year && DecimalValue(s[5..7]) == d.month && DecimalValue(s[8..]) == d.day
  {
    assert Pow10(4) == 10000 && Pow10(2) == 100;
    ZeroPadExact(d.year, 4);
    ZeroPadExact(d.month, 2);
    ZeroPadExact(d.day, 2);
    DashedParts(ZeroPad(d.year, 4), ZeroPad(d.month, 2), ZeroPad(d.day, 2));
  }

  /** The main loop's str_replace('-', '', $dateYmd): the date digits without separators. */
  function DateDigits(d: Date): string {
    Without(FormatDate(d), {'-'})
  }

  /** Removing a separator drops it after a part that does not hold it. */
  lemma {:induction false} WithoutAfterPart(a: string, c: char, rest: string)
    requires forall i :: 0 <= i < |a| ==> a[i] != c
    ensures Without(a + [c] + rest, {c}) == a + Without(rest, {c})
    decreases |a|
  {
    if a == [] {
      assert a + [c] + rest == [c] + rest;
      assert ([c] + rest)[1..] == rest;
    } else {
      assert (a + [c] + rest)[1..] == a[1..] + [c] + rest;
      WithoutAfterPart(a[1..], c, rest);
      assert a + Without(rest, {c}) == [a[0]] + (a[1..] + Without(rest, {c}));
    }
  }

  /** str_replace('-', '', ...) on a formatted date leaves its three zero-padded fields. */
  lemma DateDigitsAreThePaddedFields(d: Date)
    ensures DateDigits(d) == ZeroPad(d.year, 4) + ZeroPad(d.month, 2) + ZeroPad(d.day, 2)
  {
    var y, m, dd := ZeroPad(d.year, 4), ZeroPad(d.month, 2), ZeroPad(d.day, 2);
    var rest := m + ['-'] + dd;
    assert FormatDate(d) == y + ['-'] + rest;
    WithoutAfterPart(y, '-', rest);
    WithoutAfterPart(m, '-', dd);
    WithoutAbsent(dd, {'-'});
  }

  // ===========================================================================
  // detect_category
  // ===========================================================================

  const CategorySearchLength: nat := 300
  const Medical: string := "医科"
  const Dental: string := "歯科"
  const Pharmacy: string := "調剤"
  const HomeNursing: string := "訪問看護"
  const Common: string := "共通"

  /** The keywords in the order they are tried. */
  const Categories: seq<string> := [Medical, Dental, Pharmacy, HomeNursing, Common]

  /** The index of the first keyword of `ks` that occurs in `head`. */
  function FirstKeyword(head: string, ks: seq<string>): (r: Option<nat>)
    ensures r.Some? ==> r.value < |ks| && Contains(head, ks[r.value])
    ensures r.Some? ==> forall j :: 0 <= j < r.value ==> !Contains(head, ks[j])
    ensures r.None? ==> forall j :: 0 <= j < |ks| ==> !Contains(head, ks[j])
  {
    if ks == [] then None
    else if Contains(head, ks[0]) then Some(0)
    else match FirstKeyword(head, ks[1..])
      case None => None
      case Some(k) => Some(k + 1)
  }

  /** detect_category: the first of 医科, 歯科, 調剤, 訪問看護, 共通 that occurs in the first 300
      characters, 医科 when none does. */
  function DetectCategory(text: string): (r: string)
    ensures r in Categories
    ensures r == match FirstKeyword(Head(text, CategorySearchLength), Categories)
      case Some(k) => Categories[k]
      case None => Medical
  {
    var head := Head(text, CategorySearchLength);
    if IndexOf(head, Medical).Some? then Medical
    else if IndexOf(head, Dental).Some? then Dental
    else if IndexOf(head, Pharmacy).Some? then Pharmacy
    else if IndexOf(head, HomeNursing).Some? then HomeNursing
    else if IndexOf(head, Common).Some? then Common
    else Medical
  }

  /** 歯科 near the top makes a dental document unless 医科 is there too, whatever
      keywords follow later. */
  lemma DentalWhenNoMedical(text: string)
    requires Contains(Head(text, CategorySearchLength), Dental)
    requires !Contains(Head(text, CategorySearchLength), Medical)
    ensures DetectCategory(text) == Dental
  {
    var head := Head(text, CategorySearchLength);
    assert Categories[0] == Medical && Categories[1] == Dental;
    var k := FirstKeyword(head, Categories);
    assert k.Some? && k.value <= 1;
  }

  /** Nothing after the first 300 characters influences the category. */
  lemma DetectCategoryIgnoresTail(a: string, b: string)
    requires |a| >= CategorySearchLength
    ensures DetectCategory(a + b) == DetectCategory(a)
  {
    assert Head(a + b, CategorySearchLength) == Head(a, CategorySearchLength);
  }

  // ===========================================================================
  // split_into_questions
  // ===========================================================================

  /** What is left after the run of [ 　]* at the front of `s`. */
  function SkipBlanks(s: string): (r: string)
    ensures |r| <= |s|
  {
    if s != [] && (s[0] == ' ' || s[0] == IdeographicSpace) then SkipBlanks(s[1..]) else s
  }

  /** The question pattern ^問[ 　]*([0-9０-９]+). */
  predicate IsMarkerLine(line: string) {
    |line| >= 1 && line[0] == '問' &&
    var t := SkipBlanks(line[1..]); t != [] && IsNumeral(t[0])
  }

  /** The question number of a marker line: the captured numeral, normalised and read as a
      number. */
  function MarkerNumber(line: string): nat {
    if line == [] then 0
    else
      var t := SkipBlanks(line[1..]);
      NumeralValue(t[..NumeralSpan(t)])
  }

  /** A marker line and the lines that follow it up to the next marker line. */
  datatype Group = Group(marker: string, body: seq<string>)

  function GroupLines(g: Group): seq<string> {
    [g.marker] + g.body
  }

  function MarkerCount(lines: seq<string>): nat {
    if lines == [] then 0
    else MarkerCount(lines[..|lines| - 1]) + (if IsMarkerLine(lines[|lines| - 1]) then 1 else 0)
  }

  /** The index of the first marker line, |lines| when there is none. */
  function FirstMarker(lines: seq<string>): (r: nat)
    ensures r <= |lines|
  {
    if lines == [] then 0
    else
      var init := lines[..|lines| - 1];
      var f := FirstMarker(init);
      if f < |init| || IsMarkerLine(lines[|lines| - 1]) then f else |lines|
  }

  lemma {:induction false} FirstMarkerIsFirst(lines: seq<string>)
    ensures FirstMarker(lines) < |lines| ==> IsMarkerLine(lines[FirstMarker(lines)])
    ensures forall j :: 0 <= j < FirstMarker(lines) ==> !IsMarkerLine(lines[j])
  {
    if lines != [] {
      var init := lines[..|lines| - 1];
      FirstMarkerIsFirst(init);
      assert forall j :: 0 <= j < |init| ==> lines[j] == init[j];
    }
  }

  /** The groups the segmentation builds, defined one line at a time as the source's loop
      consumes them: a marker line opens a group, any other line joins the open group, and
      lines before the first marker belong to no group. */
  function Segments(lines: seq<string>): (gs: seq<Group>)
    ensures |gs| == MarkerCount(lines)
    decreases |lines|
  {
    if lines == [] then []
    else
      var gs := Segments(lines[..|lines| - 1]);
      var line := lines[|lines| - 1];
      if IsMarkerLine(line) then gs + [Group(line, [])]
      else if gs == [] then []
      else Extend(gs, line)
  }

  /** The groups with `line` added to the open (last) group. */
  function Extend(gs: seq<Group>, line: string): (r: seq<Group>)
    requires gs != []
    ensures |r| == |gs|
  {
    gs[..|gs| - 1] + [Group(gs[|gs| - 1].marker, gs[|gs| - 1].body + [line])]
  }

  /** Every group starts at a marker line and holds no other. */
  lemma {:induction false} SegmentsShape(lines: seq<string>)
    ensures forall k :: 0 <= k < |Segments(lines)| ==> IsMarkerLine(Segments(lines)[k].marker)
    ensures forall k :: 0 <= k < |Segments(lines)| ==>
      forall j :: 0 <= j < |Segments(lines)[k].body| ==> !IsMarkerLine(Segments(lines)[k].body[j])
    decreases |lines|
  {
    if lines != [] {
      SegmentsShape(lines[..|lines| - 1]);
    }
  }

  /** The lines of the groups, in order. */
  function Flatten(gs: seq<Group>): seq<string> {
    if gs == [] then [] else Flatten(gs[..|gs| - 1]) + GroupLines(gs[|gs| - 1])
  }

  lemma {:induction false} NoMarkerNoFirstMarker(lines: seq<string>)
    ensures MarkerCount(lines) == 0 <==> FirstMarker(lines) == |lines|
    decreases |lines|
  {
    if lines != [] {
      NoMarkerNoFirstMarker(lines[..|lines| - 1]);
    }
  }

  /** Segments after one more line, when it is a marker line... */
  lemma SegmentsSnocMarker(init: seq<string>, line: string)
    requires IsMarkerLine(line)
    ensures Segments(init + [line]) == Segments(init) + [Group(line, [])]
  {
    assert (init + [line])[..|init|] == init;
  }

  /** ...and when it is not. */
  lemma SegmentsSnocOther(init: seq<string>, line: string)
    requires !IsMarkerLine(line)
    ensures Segments(init + [line]) == if Segments(init) == [] then [] else Extend(Segments(init), line)
  {
    assert (init + [line])[..|init|] == init;
  }

  lemma FlattenSnoc(gs: seq<Group>, g: Group)
    ensures Flatten(gs + [g]) == Flatten(gs) + GroupLines(g)
  {
    assert (gs + [g])[..|gs|] == gs;
  }

  lemma FlattenExtendLast(p: seq<Group>, open: Group, line: string)
    ensures Flatten(p + [Group(open.marker, open.body + [line])]) == Flatten(p + [open]) + [line]
  {
    var last := Group(open.marker, open.body + [line]);
    FlattenSnoc(p, last);
    FlattenSnoc(p, open);
    assert GroupLines(last) == GroupLines(open) + [line];
  }

  /** Extending the open group by a line extends the flattened lines by it. */
  lemma FlattenExtend(gs: seq<Group>, line: string)
    requires gs != []
    ensures Flatten(Extend(gs, line)) == Flatten(gs) + [line]
  {
    var p, open := gs[..|gs| - 1], gs[|gs| - 1];
    FlattenExtendLast(p, open, line);
    assert p + [open] == gs;
  }

  lemma FirstMarkerSnoc(init: seq<string>, line: string)
    ensures var f := FirstMarker(init);
      FirstMarker(init + [line]) == if f < |init| || IsMarkerLine(line) then f else |init| + 1
  {
    assert (init + [line])[..|init|] == init;
  }

  lemma SuffixSnoc(s: seq<string>, f: nat)
    requires s != [] && f < |s|
    ensures s[f..] == s[..|s| - 1][f..] + [s[|s| - 1]]
  {
  }

  /** Reading one more line keeps the groups covering the lines from the first marker on:
      a marker line... */
  lemma CoverStepMarker(lines: seq<string>)
    requires lines != [] && IsMarkerLine(lines[|lines| - 1])
    requires var init := lines[..|lines| - 1]; Flatten(Segments(init)) == init[FirstMarker(init)..]
    ensures Flatten(Segments(lines)) == lines[FirstMarker(lines)..]
  {
    var init, line := lines[..|lines| - 1], lines[|lines| - 1];
    var f := FirstMarker(init);
    FlattenSnoc(Segments(init), Group(line, []));
    SuffixSnoc(lines, f);
  }

  /** ...a line inside a group... */
  lemma CoverStepInside(lines: seq<string>)
    requires lines != [] && !IsMarkerLine(lines[|lines| - 1]) && Segments(lines[..|lines| - 1]) != []
    requires var init := lines[..|lines| - 1]; Flatten(Segments(init)) == init[FirstMarker(init)..]
    ensures Flatten(Segments(lines)) == lines[FirstMarker(lines)..]
  {
    var init, line := lines[..|lines| - 1], lines[|lines| - 1];
    var f := FirstMarker(init);
    NoMarkerNoFirstMarker(init);
    FlattenExtend(Segments(init), line);
    SuffixSnoc(lines, f);
  }

  /** The groups hold exactly the lines from the first marker on, in order: the lines before
      it are dropped and nothing after it is lost. */
  lemma {:induction false} SegmentsCoverFromFirstMarker(lines: seq<string>)
    ensures Flatten(Segments(lines)) == lines[FirstMarker(lines)..]
    decreases |lines|
  {
    if lines != [] {
      var init := lines[..|lines| - 1];
      SegmentsCoverFromFirstMarker(init);
      if IsMarkerLine(lines[|lines| - 1]) {
        CoverStepMarker(lines);
      } else if Segments(init) != [] {
        CoverStepInside(lines);
      } else {
        NoMarkerNoFirstMarker(init);
      }
    }
  }

  /** One 問 block: its number and its lines joined with "\n". */
  datatype QuestionBlock = QuestionBlock(number: nat, text: string)

  function BlockOf(g: Group): QuestionBlock {
    QuestionBlock(MarkerNumber(g.marker), Join(GroupLines(g), "\n"))
  }

  function BlocksOf(gs: seq<Group>): (bs: seq<QuestionBlock>)
    ensures |bs| == |gs|
  {
    if gs == [] then [] else BlocksOf(gs[..|gs| - 1]) + [BlockOf(gs[|gs| - 1])]
  }

  lemma {:induction false} BlocksOfIndex(gs: seq<Group>, k: nat)
    requires k < |gs|
    ensures BlocksOf(gs)[k] == BlockOf(gs[k])
  {
    if k < |gs| - 1 {
      BlocksOfIndex(gs[..|gs| - 1], k);
    }
  }

  /** preg_split('/\R/u', $text): the document's lines. */
  function Lines(text: string): seq<string> {
    Split(text, UnicodeEol)
  }

  /** What split_into_questions returns. */
  function QuestionBlocks(text: string): seq<QuestionBlock> {
    BlocksOf(Segments(Lines(text)))
  }

  lemma TrimRightOfAbsent(s: string, chars: set<char>)
    requires forall i :: 0 <= i < |s| ==> s[i] !in chars
    ensures TrimRightOf(s, chars) == s
  {
  }

  /** The state of the source's loop after the lines `done`: the finished blocks, the number
      of the open block and the lines collected for it. */
  predicate LoopState(done: seq<string>, blocks: seq<QuestionBlock>, number: Option<nat>,
                      textLines: seq<string>)
  {
    var gs := Segments(done);
    if gs == [] then number.None? && blocks == []
    else
      var open := gs[|gs| - 1];
      number == Some(MarkerNumber(open.marker)) && textLines == GroupLines(open) &&
      blocks == BlocksOf(gs[..|gs| - 1])
  }

  /** An iteration on a marker line closes the open block, if any, and opens a new one... */
  lemma LoopStepMarker(next: seq<string>, blocks: seq<QuestionBlock>, number: Option<nat>,
                       textLines: seq<string>)
    requires next != [] && IsMarkerLine(next[|next| - 1])
    requires LoopState(next[..|next| - 1], blocks, number, textLines)
    ensures var line := next[|next| - 1];
      LoopState(next,
                if number.Some? then blocks + [QuestionBlock(number.value, Join(textLines, "\n"))] else blocks,
                Some(MarkerNumber(line)), [line])
  {
    var line := next[|next| - 1];
    var gs := Segments(next[..|next| - 1]);
    var gs' := gs + [Group(line, [])];
    assert Segments(next) == gs';
    var blocks' := if number.Some? then blocks + [QuestionBlock(number.value, Join(textLines, "\n"))] else blocks;
    assert blocks' == BlocksOf(gs);
    assert gs'[..|gs'| - 1] == gs;
    LoopStateOf(next, gs', blocks', Some(MarkerNumber(line)), [line]);
  }

  /** The loop state of a non-empty segmentation, stated through its groups. */
  lemma LoopStateOf(done: seq<string>, gs: seq<Group>, blocks: seq<QuestionBlock>, number: Option<nat>,
                    textLines: seq<string>)
    requires Segments(done) == gs && gs != []
    requires number == Some(MarkerNumber(gs[|gs| - 1].marker)) && textLines == GroupLines(gs[|gs| - 1])
    requires blocks == BlocksOf(gs[..|gs| - 1])
    ensures LoopState(done, blocks, number, textLines)
  {
  }

  /** ...and on any other line adds the line to the open block, if any. */
  lemma LoopStepOther(next: seq<string>, blocks: seq<QuestionBlock>, number: Option<nat>,
                      textLines: seq<string>)
    requires next != [] && !IsMarkerLine(next[|next| - 1])
    requires LoopState(next[..|next| - 1], blocks, number, textLines)
    ensures var line := next[|next| - 1];
      LoopState(next, blocks, number, if number.Some? then textLines + [line] else textLines)
  {
    var gs := Segments(next[..|next| - 1]);
    var line := next[|next| - 1];
    if gs != [] {
      var n := |gs|;
      var e := Extend(gs, line);
      assert e[..n - 1] == gs[..n - 1];
      assert e[n - 1] == Group(gs[n - 1].marker, gs[n - 1].body + [line]);
    }
  }

  /** After the last line the open block is pushed and the result is the segmentation's. */
  lemma LoopEnd(lines: seq<string>, blocks: seq<QuestionBlock>, number: Option<nat>,
                textLines: seq<string>)
    requires LoopState(lines, blocks, number, textLines)
    ensures (if number.Some? then blocks + [QuestionBlock(number.value, Join(textLines, "\n"))] else blocks)
      == BlocksOf(Segments(lines))
  {
    var gs := Segments(lines);
    if gs != [] {
      assert gs == gs[..|gs| - 1] + [gs[|gs| - 1]];
    }
  }

  /** split_into_questions: one block per marker line, in document order, each block holding
      its marker line and the lines up to the next marker. */
  method SplitIntoQuestions(text: string) returns (blocks: seq<QuestionBlock>)
    ensures blocks == QuestionBlocks(text)
    ensures |blocks| == MarkerCount(Lines(text))
  {
    var lines := Lines(text);
    SplitNoBreak(text, UnicodeEol);
    blocks := [];
    var number: Option<nat> := None;
    var textLines: seq<string> := [];
    for i := 0 to |lines|
      invariant LoopState(lines[..i], blocks, number, textLines)
    {
      assert NoBreak(UnicodeEol, lines[i]);
      blocks, number, textLines := TakeLine(lines, i, blocks, number, textLines);
    }
    assert lines[..|lines|] == lines;
    LoopEnd(lines, blocks, number, textLines);
    if number.Some? {
      blocks := blocks + [QuestionBlock(number.value, Join(textLines, "\n"))];
    }
  }

  /** One pass of the source's loop: strip the line's end, then either close the open block
      and open a new one at a marker line, or add the line to the open block (if any). */
  method TakeLine(lines: seq<string>, i: nat, blocks: seq<QuestionBlock>, number: Option<nat>,
                  textLines: seq<string>)
    returns (blocks': seq<QuestionBlock>, number': Option<nat>, textLines': seq<string>)
    requires i < |lines| && NoBreak(UnicodeEol, lines[i])
    requires LoopState(lines[..i], blocks, number, textLines)
    ensures LoopState(lines[..i + 1], blocks', number', textLines')
  {
    TrimRightOfAbsent(lines[i], {'\r', '\n'});
    var line := TrimRightOf(lines[i], {'\r', '\n'});
    assert lines[..i + 1][..i] == lines[..i];
    if IsMarkerLine(line) {
      LoopStepMarker(lines[..i + 1], blocks, number, textLines);
      blocks' := blocks;
      if number.Some? {
        blocks' := blocks + [QuestionBlock(number.value, Join(textLines, "\n"))];
      }
      number' := Some(MarkerNumber(line));
      textLines' := [line];
    } else {
      LoopStepOther(lines[..i + 1], blocks, number, textLines);
      blocks', number', textLines' := blocks, number, textLines;
      if number.Some? {
        textLines' := textLines + [line];
      }
    }
  }

  /** A document without marker lines has no blocks. */
  lemma NoMarkersNoBlocks(text: string)
    requires forall i :: 0 <= i < |Lines(text)| ==> !IsMarkerLine(Lines(text)[i])
    ensures QuestionBlocks(text) == []
  {
    FirstMarkerIsFirst(Lines(text));
    NoMarkerNoFirstMarker(Lines(text));
  }

  /** The texts of a list of blocks. */
  function Texts(bs: seq<QuestionBlock>): (r: seq<string>)
    ensures |r| == |bs|
  {
    if bs == [] then [] else Texts(bs[..|bs| - 1]) + [bs[|bs| - 1].text]
  }

  lemma {:induction false} JoinAppend(a: seq<string>, b: seq<string>)
    requires |a| >= 1 && |b| >= 1
    ensures Join(a + b, "\n") == Join(a, "\n") + "\n" + Join(b, "\n")
  {
    if |a| == 1 {
      assert (a + b)[1..] == b;
    } else {
      assert (a + b)[1..] == a[1..] + b;
      JoinAppend(a[1..], b);
    }
  }

  lemma {:induction false} JoinBlockTexts(gs: seq<Group>)
    ensures Join(Texts(BlocksOf(gs)), "\n") == Join(Flatten(gs), "\n")
    ensures gs != [] ==> |Flatten(gs)| >= 1
    decreases |gs|
  {
    if gs != [] {
      var init := gs[..|gs| - 1];
      var g := gs[|gs| - 1];
      JoinBlockTexts(init);
      var bs := BlocksOf(gs);
      assert bs[..|bs| - 1] == BlocksOf(init);
      if init != [] {
        JoinAppend(Texts(BlocksOf(init)), [BlockOf(g).text]);
        JoinAppend(Flatten(init), GroupLines(g));
      } else {
        assert Flatten(init) == [];
        assert Flatten(gs) == GroupLines(g);
      }
    }
  }

  /** Joining the block texts with "\n" gives back the document's lines from the first
      marker on. */
  lemma BlockTextsRejoin(text: string)
    ensures Join(Texts(QuestionBlocks(text)), "\n") == Join(Lines(text)[FirstMarker(Lines(text))..], "\n")
  {
    JoinBlockTexts(Segments(Lines(text)));
    SegmentsCoverFromFirstMarker(Lines(text));
  }

  lemma {:induction false} FlattenHolds(gs: seq<Group>, k: nat, j: nat)
    requires k < |gs| && j < |GroupLines(gs[k])|
    ensures GroupLines(gs[k])[j] in Flatten(gs)
    decreases |gs|
  {
    if k < |gs| - 1 {
      FlattenHolds(gs[..|gs| - 1], k, j);
    }
  }

  /** Splitting a block's text into lines gives back its group: the marker line, which the
      block's number is read from, followed by lines none of which is a marker. */
  lemma BlockLines(text: string, k: nat)
    requires k < |QuestionBlocks(text)|
    ensures var g := Segments(Lines(text))[k];
      Lines(QuestionBlocks(text)[k].text) == GroupLines(g) &&
      IsMarkerLine(g.marker) && QuestionBlocks(text)[k].number == MarkerNumber(g.marker) &&
      forall j :: 0 <= j < |g.body| ==> !IsMarkerLine(g.body[j])
  {
    var lines := Lines(text);
    var gs := Segments(lines);
    var g := gs[k];
    SplitNoBreak(text, UnicodeEol);
    SegmentsCoverFromFirstMarker(lines);
    SegmentsShape(lines);
    BlocksOfIndex(gs, k);
    forall j | 0 <= j < |GroupLines(g)|
      ensures NoBreak(UnicodeEol, GroupLines(g)[j])
    {
      FlattenHolds(gs, k, j);
    }
    SplitJoin(GroupLines(g), '\n', UnicodeEol);
  }

  // ===========================================================================
  // split_question_answer
  // ===========================================================================

  const AnswerMarker: string := "（答）"

  /** A line that, once ASCII and full-width spaces are removed, is 答 or （答）. */
  predicate IsAnswerLine(line: string) {
    var t := Without(line, {' ', IdeographicSpace});
    t == "答" || t == AnswerMarker
  }

  /** The first answer line at or after `from`. */
  function FirstAnswerLine(lines: seq<string>, from: nat): (r: Option<nat>)
    decreases |lines| - from
    ensures r.Some? ==> from <= r.value < |lines| && IsAnswerLine(lines[r.value])
    ensures forall j :: from <= j < |lines| && (r.None? || j < r.value) ==> !IsAnswerLine(lines[j])
  {
    if from >= |lines| then None
    else if IsAnswerLine(lines[from]) then Some(from)
    else FirstAnswerLine(lines, from + 1)
  }

  /** preg_replace('/^.*?（答）/us', '', $s): drop everything up to and including the first
      （答）, or nothing when there is none. */
  function StripThroughMarker(s: string): string {
    match IndexOf(s, AnswerMarker)
    case Some(q) => s[q + |AnswerMarker|..]
    case None => s
  }

  datatype QAPair = QAPair(question: string, answer: string)

  /** The split when the block holds no inline （答）: at the first answer line, which goes to
      neither side, or else everything is the question. */
  function SplitAtAnswerLine(block: string): QAPair {
    var lines := Lines(block);
    match FirstAnswerLine(lines, 0)
    case None => QAPair(Trim(block), "")
    case Some(k) => QAPair(Trim(Join(lines[..k], "\n")), Trim(Join(lines[k + 1..], "\n")))
  }

  /** What split_question_answer returns for a block. */
  function SplitQA(block: string): QAPair {
    match IndexOf(block, AnswerMarker)
    case Some(pos) => QAPair(Trim(block[..pos]), Trim(StripThroughMarker(block[pos..])))
    case None => SplitAtAnswerLine(block)
  }

  /** The first answer line is the one a left-to-right scan stops at. */
  lemma FirstAnswerLineIs(lines: seq<string>, r: Option<nat>)
    requires r.Some? ==> r.value < |lines| && IsAnswerLine(lines[r.value])
    requires forall j :: 0 <= j < |lines| && (r.None? || j < r.value) ==> !IsAnswerLine(lines[j])
    ensures FirstAnswerLine(lines, 0) == r
  {
  }

  /** split_question_answer: split at the first inline （答）; failing that at the first answer
      line, which goes to neither side; failing that everything is the question. */
  method SplitQuestionAnswer(blockText: string) returns (qa: QAPair)
    ensures qa == SplitQA(blockText)
  {
    var pos := IndexOf(blockText, AnswerMarker);
    if pos.None? {
      var lines := Lines(blockText);
      var idxAnswer: Option<nat> := None;
      for i := 0 to |lines|
        invariant idxAnswer.None?
        invariant forall j :: 0 <= j < i ==> !IsAnswerLine(lines[j])
      {
        if IsAnswerLine(lines[i]) {
          idxAnswer := Some(i);
          break;
        }
      }
      FirstAnswerLineIs(lines, idxAnswer);
      if idxAnswer.None? {
        return QAPair(Trim(blockText), "");
      }
      var qLines := lines[..idxAnswer.value];
      var aLines := lines[idxAnswer.value + 1..];
      return QAPair(Trim(Join(qLines, "\n")), Trim(Join(aLines, "\n")));
    }
    var question := blockText[..pos.value];
    var answer := blockText[pos.value..];
    answer := StripThroughMarker(answer);
    return QAPair(Trim(question), Trim(answer));
  }

  /** With an inline marker the answer is everything after its first occurrence, trimmed. */
  lemma InlineAnswer(block: string, pos: nat)
    requires IndexOf(block, AnswerMarker) == Some(pos)
    ensures SplitQA(block) == QAPair(Trim(block[..pos]), Trim(block[pos + |AnswerMarker|..]))
  {
    var s := block[pos..];
    assert s[0..|AnswerMarker|] == block[pos..pos + |AnswerMarker|];
    assert OccursAt(s, AnswerMarker, 0);
    assert s[|AnswerMarker|..] == block[pos + |AnswerMarker|..];
  }

  /** With an inline marker the question is what precedes its first occurrence, which holds
      no marker. */
  lemma InlineQuestionHasNoMarker(block: string, pos: nat)
    requires IndexOf(block, AnswerMarker) == Some(pos)
    ensures !Contains(Trim(block[..pos]), AnswerMarker)
  {
    if Contains(Trim(block[..pos]), AnswerMarker) {
      ContainsTrim(block[..pos], AnswerMarker);
      var i: nat :| i <= |block[..pos]| && OccursAt(block[..pos], AnswerMarker, i);
      assert block[i..i + 3] == block[..pos][i..i + 3];
      assert OccursAt(block, AnswerMarker, i);
      assert false;
    }
  }

  /** A line of a text is part of the text, so what it contains the text contains. */
  lemma LineInText(text: string, m: nat, k: string)
    requires m < |Lines(text)| && Contains(Lines(text)[m], k)
    ensures Contains(text, k)
  {
    var line := Lines(text)[m];
    var a := SplitPieceOffset(text, UnicodeEol, m);
    assert text[a..a + |line|] == line;
    ContainsSlice(text, a, a + |line|, k);
  }

  /** Lines before an answer line hold no marker when the block holds none. */
  lemma LinesBeforeHaveNoMarker(block: string, k: nat)
    requires !Contains(block, AnswerMarker)
    requires k <= |Lines(block)|
    ensures !Contains(Trim(Join(Lines(block)[..k], "\n")), AnswerMarker)
  {
    var qLines := Lines(block)[..k];
    if Contains(Trim(Join(qLines, "\n")), AnswerMarker) {
      ContainsTrim(Join(qLines, "\n"), AnswerMarker);
      if k == 0 {
        assert false;
      }
      ContainsJoin(qLines, '\n', AnswerMarker);
      var m :| 0 <= m < |qLines| && Contains(qLines[m], AnswerMarker);
      LineInText(block, m, AnswerMarker);
      assert false;
    }
  }

  /** The question never contains （答）, whichever way the block was split. */
  lemma QuestionHasNoMarker(block: string)
    ensures !Contains(SplitQA(block).question, AnswerMarker)
  {
    match IndexOf(block, AnswerMarker)
    case Some(pos) =>
      InlineQuestionHasNoMarker(block, pos);
    case None =>
      match FirstAnswerLine(Lines(block), 0)
      case None =>
        if Contains(Trim(block), AnswerMarker) {
          ContainsTrim(block, AnswerMarker);
        }
      case Some(k) =>
        LinesBeforeHaveNoMarker(block, k);
  }

  /** In a question, the marker and an answer, the first marker is the one written after the
      question. */
  lemma MarkerAfterQuestion(q: string, a: string)
    requires !Contains(q, AnswerMarker)
    ensures IndexOf(q + AnswerMarker + a, AnswerMarker) == Some(|q|)
  {
    var s := q + AnswerMarker + a;
    var n := |q|;
    assert s[n..n + 3] == AnswerMarker;
    forall j: nat | j < n
      ensures !OccursAt(s, AnswerMarker, j)
    {
      if j + 3 <= n {
        assert s[j..j + 3] == q[j..j + 3];
        assert !OccursAt(q, AnswerMarker, j);
      } else {
        assert s[j..j + 3][n - j] == s[n] == '（';
        assert AnswerMarker[n - j] != '（';
      }
    }
    assert OccursAt(s, AnswerMarker, n);
  }

  /** Writing a question, the marker and an answer and splitting the result gives back the
      question and the answer, trimmed. */
  lemma InlineSplitRoundTrip(q: string, a: string)
    requires !Contains(q, AnswerMarker)
    ensures SplitQA(q + AnswerMarker + a) == QAPair(Trim(q), Trim(a))
  {
    var s := q + AnswerMarker + a;
    MarkerAfterQuestion(q, a);
    InlineAnswer(s, |q|);
    assert s[..|q|] == q;
    assert s[|q| + 3..] == a;
  }

  /** Question lines, a line reading 答, and answer lines, glued by newlines, split back into
      the question lines and the answer lines, each side trimmed; the 答 line goes to neither
      side. This holds when no line holds （答） or a line break and no question line is itself
      an answer line (answer lines after the first may be). */
  lemma AnswerLineSplitRoundTrip(qs: seq<string>, ans: seq<string>)
    requires forall k :: 0 <= k < |qs| ==> !Contains(qs[k], AnswerMarker) && NoBreak(UnicodeEol, qs[k])
    requires forall k :: 0 <= k < |ans| ==> !Contains(ans[k], AnswerMarker) && NoBreak(UnicodeEol, ans[k])
    requires forall k :: 0 <= k < |qs| ==> !IsAnswerLine(qs[k])
    ensures SplitQA(Join(qs + ["答"] + ans, "\n")) ==
      QAPair(Trim(Join(qs, "\n")), Trim(Join(ans, "\n")))
  {
    var parts := qs + ["答"] + ans;
    var block := Join(parts, "\n");
    var n := |qs|;
    assert forall k :: 0 <= k < |parts| ==>
      parts[k] == (if k < n then qs[k] else if k == n then "答" else ans[k - n - 1]);
    assert !Contains("答", AnswerMarker);
    assert NoBreak(UnicodeEol, "答");
    if Contains(block, AnswerMarker) {
      ContainsJoin(parts, '\n', AnswerMarker);
      assert false;
    }
    SplitJoin(parts, '\n', UnicodeEol);
    WithoutAbsent("答", {' ', IdeographicSpace});
    FirstAnswerLineIs(parts, Some(n));
    assert parts[..n] == qs;
    assert parts[n + 1..] == ans;
  }

  /** Without any marker the whole block, trimmed, is the question and the answer is empty. */
  lemma NoMarkerAllQuestion(block: string)
    requires !Contains(block, AnswerMarker)
    requires forall i :: 0 <= i < |Lines(block)| ==> !IsAnswerLine(Lines(block)[i])
    ensures SplitQA(block) == QAPair(Trim(block), "")
  {
  }

  // ===========================================================================
  // build_markdown and the output file name
  // ===========================================================================

  /** What build_markdown receives. */
  datatype Meta = Meta(number: nat, date: string, sourceFile: string, category: string,
                       question: string, answer: string)

  const Placeholder: string := "(未抽出)"

  /** A question or answer as build_markdown shows it: the text, or the placeholder when the
      text is empty. */
  function Shown(field: string): string {
    if field != "" then field else Placeholder
  }

  /** The first 8 entries of build_markdown's $lines: the title, the front matter, a blank
      line and the question heading. */
  function HeaderLines(meta: Meta): seq<string> {
    [ "# Q" + NatToString(meta.number),
      "date: " + meta.date,
      "source_file: " + meta.sourceFile,
      "category: " + meta.category,
      "codes: []",
      "tags: [\"疑義解釈\"]",
      "",
      "## 質問" ]
  }

  /** The entries between the question and the answer. */
  const AnswerHeading: seq<string> := ["", "## 回答"]

  /** The entries after the answer. */
  const Closing: seq<string> := ["", "## Notes", "- 自動変換により生成。必要に応じて人手で補正してください。"]

  /** The 15 entries of build_markdown's $lines. */
  function MarkdownLines(meta: Meta): seq<string> {
    HeaderLines(meta) + [Shown(meta.question)] + AnswerHeading + [Shown(meta.answer)] + Closing
  }

  /** build_markdown: the entries joined with "\n", plus a final "\n". */
  function Markdown(meta: Meta): (md: string)
    ensures |md| >= 1 && md[|md| - 1] == '\n'
  {
    Join(MarkdownLines(meta), "\n") + "\n"
  }

  /** A string that fits on one line. */
  predicate OneLine(s: string) {
    NoBreak(Char('\n'), s)
  }

  lemma OneLineConcat(a: string, b: string)
    requires OneLine(a) && OneLine(b)
    ensures OneLine(a + b)
  {
    assert forall i :: 0 <= i < |a + b| ==> (a + b)[i] == if i < |a| then a[i] else b[i - |a|];
  }

  /** The header entries fit on one line when the date, the source file and the category do. */
  lemma HeaderLinesOneLine(meta: Meta)
    requires OneLine(meta.date) && OneLine(meta.sourceFile) && OneLine(meta.category)
    ensures forall k :: 0 <= k < |HeaderLines(meta)| ==> OneLine(HeaderLines(meta)[k])
  {
    var n := NatToString(meta.number);
    assert OneLine(n);
    OneLineConcat("# Q", n);
    OneLineConcat("date: ", meta.date);
    OneLineConcat("source_file: ", meta.sourceFile);
    OneLineConcat("category: ", meta.category);
  }

  /** The fixed entries around the answer each fit on one line. */
  lemma FixedLinesOneLine()
    ensures forall k :: 0 <= k < |AnswerHeading| ==> OneLine(AnswerHeading[k])
    ensures forall k :: 0 <= k < |Closing| ==> OneLine(Closing[k])
  {
    assert forall k :: 0 <= k < |AnswerHeading| ==> OneLine(AnswerHeading[k]);
  }

  /** The Markdown is its header entries, the question, the two entries that open the answer
      section, the answer and the closing entries, glued by newlines. */
  lemma MarkdownText(meta: Meta)
    ensures Markdown(meta) == Join(HeaderLines(meta), "\n") + "\n" + (Shown(meta.question) + "\n" +
      (Join(AnswerHeading, "\n") + "\n" + (Shown(meta.answer) + "\n" + (Join(Closing, "\n") + "\n"))))
  {
    var q, a := Shown(meta.question), Shown(meta.answer);
    var tail := [a] + Closing;
    var mid := AnswerHeading + tail;
    assert MarkdownLines(meta) == HeaderLines(meta) + ([q] + mid);
    JoinAppend([a], Closing);
    JoinAppend(AnswerHeading, tail);
    JoinAppend([q], mid);
    JoinAppend(HeaderLines(meta), [q] + mid);
  }

  /** Cut at its newlines, the Markdown gives its header entries, the lines of the question,
      the blank line and heading before the answer, the lines of the answer, and the closing
      entries with the empty rest after the final newline. Only the date, the source file and
      the category need to fit on one line; the question and the answer may span several. */
  lemma MarkdownSections(meta: Meta)
    requires OneLine(meta.date) && OneLine(meta.sourceFile) && OneLine(meta.category)
    ensures Split(Markdown(meta), Char('\n')) ==
      HeaderLines(meta) + Split(Shown(meta.question), Char('\n')) + AnswerHeading +
      Split(Shown(meta.answer), Char('\n')) + (Closing + [""])
  {
    HeaderLinesOneLine(meta);
    FixedLinesOneLine();
    MarkdownText(meta);
    SplitSections(HeaderLines(meta), Shown(meta.question), AnswerHeading, Shown(meta.answer), Closing);
  }

  /** Runs of one-line entries and two free texts, glued by newlines and closed by a final
      newline, split into the entries and the pieces of each text, in order. */
  lemma SplitSections(head: seq<string>, q: string, mid: seq<string>, a: string, tail: seq<string>)
    requires |head| >= 1 && |mid| >= 1 && |tail| >= 1
    requires forall k :: 0 <= k < |head| ==> OneLine(head[k])
    requires forall k :: 0 <= k < |mid| ==> OneLine(mid[k])
    requires forall k :: 0 <= k < |tail| ==> OneLine(tail[k])
    ensures Split(Join(head, "\n") + "\n" + (q + "\n" + (Join(mid, "\n") + "\n" + (a + "\n" +
        (Join(tail, "\n") + "\n")))), Char('\n')) ==
      head + Split(q, Char('\n')) + mid + Split(a, Char('\n')) + (tail + [""])
  {
    var t := Join(tail, "\n") + "\n";
    SplitJoin(head, '\n', Char('\n'));
    SplitJoin(mid, '\n', Char('\n'));
    JoinSnocEmpty(tail);
    assert forall k :: 0 <= k < |tail + [""]| ==> OneLine((tail + [""])[k]);
    SplitJoin(tail + [""], '\n', Char('\n'));
    SplitFive(Join(head, "\n"), q, Join(mid, "\n"), a, t);
  }

  /** Five texts glued by four newlines split into the pieces of each, in order. */
  lemma SplitFive(h: string, q: string, m: string, a: string, t: string)
    ensures Split(h + "\n" + (q + "\n" + (m + "\n" + (a + "\n" + t))), Char('\n')) ==
      Split(h, Char('\n')) + Split(q, Char('\n')) + Split(m, Char('\n')) + Split(a, Char('\n')) +
      Split(t, Char('\n'))
  {
    var r4 := a + "\n" + t;
    var r3 := m + "\n" + r4;
    var r2 := q + "\n" + r3;
    SplitAround(h, '\n', r2);
    SplitAround(q, '\n', r3);
    SplitAround(m, '\n', r4);
    SplitAround(a, '\n', t);
    RegroupFive(Split(h, Char('\n')), Split(q, Char('\n')), Split(m, Char('\n')), Split(a, Char('\n')),
      Split(t, Char('\n')));
  }

  lemma RegroupFive<T>(u: seq<T>, v: seq<T>, w: seq<T>, x: seq<T>, y: seq<T>)
    ensures u + (v + (w + (x + y))) == u + v + w + x + y
  {
  }

  /** Read line by line, the Markdown shows the date and category on their own lines, and a
      question section and an answer section whose lines rejoin to the question and the answer
      when there is one, and to the placeholder otherwise. */
  lemma MarkdownReadBack(meta: Meta)
    requires OneLine(meta.date) && OneLine(meta.sourceFile) && OneLine(meta.category)
    ensures ReadsBack(Split(Markdown(meta), Char('\n')), meta)
  {
    MarkdownSections(meta);
    SectionsReadBack(Split(Markdown(meta), Char('\n')), meta);
  }

  /** What a reader finds in the lines `ls` of the Markdown for `meta`: the date and category
      on lines 1 and 3, the question heading on line 7, then the question's lines, which rejoin
      to the question (or the placeholder), the answer heading, the answer's lines, which
      rejoin likewise, and the empty rest after the final newline. */
  predicate ReadsBack(ls: seq<string>, meta: Meta) {
    var nq := |Split(Shown(meta.question), Char('\n'))|;
    var na := |Split(Shown(meta.answer), Char('\n'))|;
    |ls| == nq + na + 14 &&
    ls[1] == "date: " + meta.date && ls[3] == "category: " + meta.category && ls[7] == "## 質問" &&
    Join(ls[8..8 + nq], "\n") == Shown(meta.question) &&
    ls[8 + nq + 1] == "## 回答" &&
    Join(ls[8 + nq + 2..8 + nq + 2 + na], "\n") == Shown(meta.answer) &&
    ls[|ls| - 1] == ""
  }

  lemma SectionsReadBack(ls: seq<string>, meta: Meta)
    requires ls == HeaderLines(meta) + Split(Shown(meta.question), Char('\n')) + AnswerHeading +
      Split(Shown(meta.answer), Char('\n')) + (Closing + [""])
    ensures ReadsBack(ls, meta)
  {
    var qs := Split(Shown(meta.question), Char('\n'));
    var ans := Split(Shown(meta.answer), Char('\n'));
    JoinSplit(Shown(meta.question), '\n');
    JoinSplit(Shown(meta.answer), '\n');
    FiveRuns(ls, HeaderLines(meta), qs, AnswerHeading, ans, Closing + [""]);
    var qSection, aSection := ls[8..8 + |qs|], ls[8 + |qs| + 2..8 + |qs| + 2 + |ans|];
    assert Join(qSection, "\n") == Shown(meta.question);
    assert Join(aSection, "\n") == Shown(meta.answer);
  }

  /** Where each of five concatenated runs sits in the whole. */
  lemma FiveRuns<T>(ls: seq<T>, h: seq<T>, qs: seq<T>, m: seq<T>, ans: seq<T>, t: seq<T>)
    requires ls == h + qs + m + ans + t && |h| == 8 && |m| == 2 && |t| >= 1
    ensures |ls| == |qs| + |ans| + 10 + |t|
    ensures ls[1] == h[1] && ls[3] == h[3] && ls[7] == h[7] && ls[8 + |qs| + 1] == m[1]
    ensures ls[8..8 + |qs|] == qs && ls[8 + |qs| + 2..8 + |qs| + 2 + |ans|] == ans
    ensures ls[|ls| - 1] == t[|t| - 1]
  {
  }

  lemma {:induction false} JoinSnocEmpty(parts: seq<string>)
    requires |parts| >= 1
    ensures Join(parts + [""], "\n") == Join(parts, "\n") + "\n"
  {
    if |parts| == 1 {
      assert (parts + [""])[1..] == [""];
    } else {
      assert (parts + [""])[1..] == parts[1..] + [""];
      JoinSnocEmpty(parts[1..]);
    }
  }

  /** sprintf('%s_Q%d_%s.md', $dateForName, $qNum, $category) */
  function FileName(dateForName: string, number: nat, category: string): string {
    dateForName + "_Q" + NatToString(number) + "_" + category + ".md"
  }

  /** Cut at the underscores, a file name gives back its date, question number and category. */
  lemma FileNameParts(dateForName: string, number: nat, category: string)
    requires '_' !in dateForName && '_' !in category
    ensures Split(FileName(dateForName, number, category), Char('_')) ==
      [dateForName, "Q" + NatToString(number), category + ".md"]
  {
    var n := NatToString(number);
    var parts := [dateForName, "Q" + n, category + ".md"];
    assert forall i :: 0 <= i < |n| ==> n[i] != '_';
    assert parts[1..][1..] == [category + ".md"];
    assert Join(parts[1..], "_") == "Q" + n + "_" + (category + ".md");
    assert FileName(dateForName, number, category) == Join(parts, "_");
    SplitJoin(parts, '_', Char('_'));
  }

  /** Two questions get the same file name only if they agree on date, number and category. */
  lemma FileNameInjective(d1: string, n1: nat, c1: string, d2: string, n2: nat, c2: string)
    requires '_' !in d1 && '_' !in c1 && '_' !in d2 && '_' !in c2
    requires FileName(d1, n1, c1) == FileName(d2, n2, c2)
    ensures d1 == d2 && n1 == n2 && c1 == c2
  {
    FileNameParts(d1, n1, c1);
    FileNameParts(d2, n2, c2);
    assert "Q" + NatToString(n1) == "Q" + NatToString(n2);
    assert NatToString(n1) == ("Q" + NatToString(n1))[1..];
    assert NatToString(n2) == ("Q" + NatToString(n2))[1..];
    NatToStringInjective(n1, n2);
    assert c1 == (c1 + ".md")[..|c1 + ".md"| - 3];
    assert c2 == (c2 + ".md")[..|c2 + ".md"| - 3];
  }
}
