/**
 * The PHP string built-ins the converters rely on, over strings of code points
 * (the text is already decoded; `mb_*` functions and their byte-level twins agree
 * on such strings):
 *   trim / ltrim / rtrim, mb_strpos, explode / preg_split / implode,
 *   str_replace and preg_replace over character classes, intval,
 *   sprintf('%d') and sprintf('%0Nd'), and PHP's empty() on strings.
 */
module PhpStrings {
  import opened Wrappers

  // ---------------------------------------------------------------------------
  // trim, ltrim, rtrim
  // ---------------------------------------------------------------------------

  /** The characters trim() strips by default: space, tab, LF, CR, NUL and vertical tab.
      The ideographic space U+3000 is not among them. */
  const DefaultTrimChars: set<char> := {' ', '\t', '\n', '\r', '\0', '\U{0B}'}

  /** Where ltrim stops: the first position at or after `i` whose character is not in
      `chars`, or the end of the string. */
  function SkipLeft(s: string, chars: set<char>, i: nat): (r: nat)
    requires i <= |s|
    ensures i <= r <= |s|
    ensures r < |s| ==> s[r] !in chars
    decreases |s| - i
  {
    if i < |s| && s[i] in chars then SkipLeft(s, chars, i + 1) else i
  }

  /** ltrim passes over characters of `chars` only. */
  lemma {:induction false} SkipLeftDrops(s: string, chars: set<char>, i: nat)
    requires i <= |s|
    ensures forall k :: i <= k < SkipLeft(s, chars, i) ==> s[k] in chars
    decreases |s| - i
  {
    if i < |s| && s[i] in chars {
      SkipLeftDrops(s, chars, i + 1);
    }
  }

  /** Where rtrim stops: the end of the last character before `j`, and not before `lo`,
      that is not in `chars`. */
  function SkipRight(s: string, chars: set<char>, lo: nat, j: nat): (r: nat)
    requires lo <= j <= |s|
    ensures lo <= r <= j
    ensures r > lo ==> s[r - 1] !in chars
    decreases j
  {
    if j > lo && s[j - 1] in chars then SkipRight(s, chars, lo, j - 1) else j
  }

  /** rtrim passes over characters of `chars` only. */
  lemma {:induction false} SkipRightDrops(s: string, chars: set<char>, lo: nat, j: nat)
    requires lo <= j <= |s|
    ensures forall k :: SkipRight(s, chars, lo, j) <= k < j ==> s[k] in chars
    decreases j
  {
    if j > lo && s[j - 1] in chars {
      SkipRightDrops(s, chars, lo, j - 1);
    }
  }

  /** ltrim($s, $chars) */
  function TrimLeftOf(s: string, chars: set<char>): string {
    s[SkipLeft(s, chars, 0)..]
  }

  /** rtrim($s, $chars) */
  function TrimRightOf(s: string, chars: set<char>): string {
    s[..SkipRight(s, chars, 0, |s|)]
  }

  /** rtrim($s) with the default character list. */
  function TrimRight(s: string): string {
    TrimRightOf(s, DefaultTrimChars)
  }

  /** Where trim($s) starts. */
  function TrimStart(s: string): nat {
    SkipLeft(s, DefaultTrimChars, 0)
  }

  /** Where trim($s) ends. */
  function TrimEnd(s: string): nat {
    SkipRight(s, DefaultTrimChars, TrimStart(s), |s|)
  }

  /** trim($s) with the default character list: the slice between the characters ltrim and
      rtrim stop at. */
  function Trim(s: string): (r: string)
    ensures |r| <= |s|
  {
    s[TrimStart(s)..TrimEnd(s)]
  }

  /** The trimmed string neither starts nor ends with a trimmed character, and only trimmed
      characters were dropped on either side. */
  lemma TrimEnds(s: string)
    ensures var r := Trim(s); r != [] ==> r[0] !in DefaultTrimChars && r[|r| - 1] !in DefaultTrimChars
    ensures forall k :: 0 <= k < TrimStart(s) ==> s[k] in DefaultTrimChars
    ensures forall k :: TrimEnd(s) <= k < |s| ==> s[k] in DefaultTrimChars
  {
    SkipLeftDrops(s, DefaultTrimChars, 0);
    SkipRightDrops(s, DefaultTrimChars, TrimStart(s), |s|);
  }

  /** A string that neither starts nor ends with a trimmed character is its own trim. */
  lemma TrimOfTrimmed(s: string)
    requires s != [] ==> s[0] !in DefaultTrimChars && s[|s| - 1] !in DefaultTrimChars
    ensures Trim(s) == s
  {
  }

  /** Trimming twice is trimming once. */
  lemma TrimIdempotent(s: string)
    ensures Trim(Trim(s)) == Trim(s)
  {
    TrimEnds(s);
    TrimOfTrimmed(Trim(s));
  }

  // ---------------------------------------------------------------------------
  // Substring search (mb_strpos)
  // ---------------------------------------------------------------------------

  predicate OccursAt(s: string, k: string, i: nat) {
    i + |k| <= |s| && s[i..i + |k|] == k
  }

  predicate Contains(s: string, k: string) {
    exists i: nat :: i <= |s| && OccursAt(s, k, i)
  }

  /** The first position at or after `from` where `k` occurs in `s`. */
  function IndexFrom(s: string, k: string, from: nat): (r: Option<nat>)
    decreases |s| - from
    ensures r.Some? ==> from <= r.value && OccursAt(s, k, r.value)
    ensures forall j: nat :: from <= j && (r.None? || j < r.value) ==> !OccursAt(s, k, j)
  {
    if from + |k| > |s| then None
    else if s[from..from + |k|] == k then Some(from)
    else IndexFrom(s, k, from + 1)
  }

  /** mb_strpos($s, $k): the first occurrence of `k`, or none (PHP's false). */
  function IndexOf(s: string, k: string): (r: Option<nat>)
    ensures r.None? <==> !Contains(s, k)
    ensures r.Some? ==> OccursAt(s, k, r.value) && forall j: nat :: j < r.value ==> !OccursAt(s, k, j)
  {
    IndexFrom(s, k, 0)
  }

  /** An occurrence inside a slice is an occurrence in the whole string. */
  lemma ContainsSlice(s: string, a: nat, b: nat, k: string)
    requires a <= b <= |s|
    requires Contains(s[a..b], k)
    ensures Contains(s, k)
  {
    var i: nat :| i <= |s[a..b]| && OccursAt(s[a..b], k, i);
    forall m | 0 <= m < |k|
      ensures s[a + i + m] == k[m]
    {
      assert s[a..b][i..i + |k|][m] == k[m];
    }
    assert OccursAt(s, k, a + i);
  }

  /** Whatever trim() returns is a slice of its argument, so it adds no occurrence. */
  lemma ContainsTrim(s: string, k: string)
    requires Contains(Trim(s), k)
    ensures Contains(s, k)
  {
    ContainsSlice(s, TrimStart(s), TrimEnd(s), k);
  }

  // ---------------------------------------------------------------------------
  // Splitting and joining
  // ---------------------------------------------------------------------------

  /** What a split cuts at:
      Char(c)     explode($c, $s) for a one-character delimiter;
      AnyEol      preg_split('/\r\n|\r|\n/', $s);
      UnicodeEol  preg_split('/\R/u', $s): CRLF, LF, VT, FF, CR, NEL, U+2028, U+2029. */
  datatype Separator = Char(c: char) | AnyEol | UnicodeEol

  predicate IsBreak(sep: Separator, c: char) {
    match sep
    case Char(d) => c == d
    case AnyEol => c == '\r' || c == '\n'
    case UnicodeEol =>
      c == '\n' || c == '\U{0B}' || c == '\U{0C}' || c == '\r' || c == '\U{85}' || c == '\U{2028}' || c == '\U{2029}'
  }

  predicate NoBreak(sep: Separator, s: string) {
    forall i :: 0 <= i < |s| ==> !IsBreak(sep, s[i])
  }

  /** How many characters the separator match at `i` spans: both line-break patterns try
      CRLF first, so a CR followed by LF is one break of two characters. */
  function BreakLen(s: string, i: nat, sep: Separator): nat
    requires i < |s| && IsBreak(sep, s[i])
  {
    if !sep.Char? && s[i] == '\r' && i + 1 < |s| && s[i + 1] == '\n' then 2 else 1
  }

  /** The first break at or after `from`, or |s| when there is none. */
  function FirstBreak(s: string, sep: Separator, from: nat): (j: nat)
    requires from <= |s|
    decreases |s| - from
    ensures from <= j <= |s|
    ensures j < |s| ==> IsBreak(sep, s[j])
  {
    if from == |s| || IsBreak(sep, s[from]) then from else FirstBreak(s, sep, from + 1)
  }

  /** There is no break before the first one. */
  lemma {:induction false} BeforeFirstBreak(s: string, sep: Separator, from: nat)
    requires from <= |s|
    ensures forall i :: from <= i < FirstBreak(s, sep, from) ==> !IsBreak(sep, s[i])
    decreases |s| - from
  {
    if from < |s| && !IsBreak(sep, s[from]) {
      BeforeFirstBreak(s, sep, from + 1);
    }
  }

  /** The pieces between the separator matches, left to right; never empty, as PHP's
      explode and preg_split return at least one (possibly empty) piece. */
  function Split(s: string, sep: Separator): (r: seq<string>)
    decreases |s|
    ensures |r| >= 1
  {
    var j := FirstBreak(s, sep, 0);
    if j == |s| then [s] else [s[..j]] + Split(s[j + BreakLen(s, j, sep)..], sep)
  }

  /** No piece of a split holds a break. */
  lemma {:induction false} SplitNoBreak(s: string, sep: Separator)
    ensures forall k :: 0 <= k < |Split(s, sep)| ==> NoBreak(sep, Split(s, sep)[k])
    decreases |s|
  {
    var j := FirstBreak(s, sep, 0);
    BeforeFirstBreak(s, sep, 0);
    if j < |s| {
      SplitNoBreak(s[j + BreakLen(s, j, sep)..], sep);
    }
  }

  /** implode($sep, $parts) */
  function Join(parts: seq<string>, sep: string): string {
    if parts == [] then "" else if |parts| == 1 then parts[0] else parts[0] + sep + Join(parts[1..], sep)
  }

  /** implode() followed by the matching explode() gives back the parts, provided no part
      holds a break and the glue is a one-character break (not a CR that could pair up with
      an LF as one line break). */
  lemma {:induction false} SplitJoin(parts: seq<string>, c: char, sep: Separator)
    requires |parts| >= 1
    requires IsBreak(sep, c) && (sep.Char? || c != '\r')
    requires forall k :: 0 <= k < |parts| ==> NoBreak(sep, parts[k])
    ensures Split(Join(parts, [c]), sep) == parts
  {
    var s := Join(parts, [c]);
    var p := parts[0];
    if |parts| == 1 {
      assert FirstBreak(s, sep, 0) == |s|;
    } else {
      var rest := Join(parts[1..], [c]);
      assert s == p + [c] + rest;
      assert s[|p|] == c;
      forall i | 0 <= i < |p|
        ensures !IsBreak(sep, s[i])
      {
        assert s[i] == p[i];
      }
      var j := FirstBreak(s, sep, 0);
      BeforeFirstBreak(s, sep, 0);
      assert j == |p|;
      assert BreakLen(s, j, sep) == 1;
      assert s[..j] == p;
      assert s[j + 1..] == rest;
      SplitJoin(parts[1..], c, sep);
    }
  }

  /** The first break is the one position with no break before it. */
  lemma {:induction false} FirstBreakIs(s: string, sep: Separator, from: nat, j: nat)
    requires from <= j <= |s|
    requires forall i :: from <= i < j ==> !IsBreak(sep, s[i])
    requires j == |s| || IsBreak(sep, s[j])
    ensures FirstBreak(s, sep, from) == j
    decreases j - from
  {
    if from < j {
      FirstBreakIs(s, sep, from + 1, j);
    }
  }

  /** explode() cuts at every delimiter, so exploding two texts glued by one delimiter gives
      the pieces of the first followed by the pieces of the second. */
  lemma {:induction false} SplitAround(a: string, c: char, b: string)
    ensures Split(a + [c] + b, Char(c)) == Split(a, Char(c)) + Split(b, Char(c))
    decreases |a|
  {
    var ja := FirstBreak(a, Char(c), 0);
    if ja == |a| {
      SplitGlueFirst(a, c, b);
    } else {
      var a' := a[ja + 1..];
      SplitGlueLater(a, c, b);
      assert BreakLen(a, ja, Char(c)) == 1;
      SplitAround(a', c, b);
    }
  }

  /** With no delimiter in `a`, the glue is the first cut. */
  lemma SplitGlueFirst(a: string, c: char, b: string)
    requires FirstBreak(a, Char(c), 0) == |a|
    ensures Split(a + [c] + b, Char(c)) == [a] + Split(b, Char(c))
  {
    var s := a + [c] + b;
    BeforeFirstBreak(a, Char(c), 0);
    assert forall i :: 0 <= i < |a| ==> s[i] == a[i];
    FirstBreakIs(s, Char(c), 0, |a|);
    assert s[..|a|] == a;
    assert s[|a| + 1..] == b;
  }

  /** With a delimiter in `a`, the first cut is the first delimiter of `a`. */
  lemma SplitGlueLater(a: string, c: char, b: string)
    requires FirstBreak(a, Char(c), 0) < |a|
    ensures var j := FirstBreak(a, Char(c), 0);
      Split(a + [c] + b, Char(c)) == [a[..j]] + Split(a[j + 1..] + [c] + b, Char(c))
  {
    var s := a + [c] + b;
    var j := FirstBreak(a, Char(c), 0);
    BeforeFirstBreak(a, Char(c), 0);
    assert forall i :: 0 <= i <= j ==> s[i] == a[i];
    FirstBreakIs(s, Char(c), 0, j);
    assert s[..j] == a[..j];
    assert s[j + 1..] == a[j + 1..] + [c] + b;
  }

  /** explode() followed by implode() with the same one-character delimiter is lossless. */
  lemma {:induction false} JoinSplit(s: string, c: char)
    ensures Join(Split(s, Char(c)), [c]) == s
    decreases |s|
  {
    var j := FirstBreak(s, Char(c), 0);
    if j < |s| {
      var t := s[j + 1..];
      var parts := Split(s, Char(c));
      assert BreakLen(s, j, Char(c)) == 1;
      assert parts == [s[..j]] + Split(t, Char(c));
      assert parts[1..] == Split(t, Char(c));
      assert Join(parts, [c]) == s[..j] + [c] + Join(Split(t, Char(c)), [c]);
      JoinSplit(t, c);
      assert s == s[..j] + [c] + t;
    }
  }

  /** Every piece a split returns is a slice of the string that was split; `a` is where. */
  lemma {:induction false} SplitPieceOffset(s: string, sep: Separator, k: nat) returns (a: nat)
    requires k < |Split(s, sep)|
    ensures OccursAt(s, Split(s, sep)[k], a)
    decreases |s|
  {
    if k == 0 {
      FirstPieceAtStart(s, sep);
      a := 0;
    } else {
      var b := RestAfterFirstBreak(s, sep, k);
      var a' := SplitPieceOffset(s[b..], sep, k - 1);
      OccursInSuffix(s, b, Split(s[b..], sep)[k - 1], a');
      a := b + a';
    }
  }

  /** The first piece starts the string. */
  lemma FirstPieceAtStart(s: string, sep: Separator)
    ensures OccursAt(s, Split(s, sep)[0], 0)
  {
    var j := FirstBreak(s, sep, 0);
    if j == |s| {
      SplitWithoutBreak(s, sep);
      assert s[0..|s|] == s;
    } else {
      SplitAtFirstBreak(s, sep, j, j + BreakLen(s, j, sep));
      assert s[0..j] == s[..j];
    }
  }

  /** A piece after the first is a piece of what follows the first break, which starts at
      `b`. */
  lemma RestAfterFirstBreak(s: string, sep: Separator, k: nat) returns (b: nat)
    requires 0 < k < |Split(s, sep)|
    ensures 1 <= b <= |s|
    ensures k - 1 < |Split(s[b..], sep)| && Split(s, sep)[k] == Split(s[b..], sep)[k - 1]
  {
    var j := FirstBreak(s, sep, 0);
    SplitWithoutBreak(s, sep);
    b := j + BreakLen(s, j, sep);
    SplitAtFirstBreak(s, sep, j, b);
    IndexAfterHead(s[..j], Split(s[b..], sep), k);
  }

  /** Indexing past the head of `[x] + r` indexes `r`. */
  lemma IndexAfterHead<T>(x: T, r: seq<T>, k: nat)
    requires 0 < k < 1 + |r|
    ensures ([x] + r)[k] == r[k - 1]
  {
  }

  /** Without a break the split is the string alone. */
  lemma SplitWithoutBreak(s: string, sep: Separator)
    ensures FirstBreak(s, sep, 0) == |s| ==> Split(s, sep) == [s]
  {
  }

  /** With a break the split is the piece before the first break, then the split of what
      follows it. */
  lemma SplitAtFirstBreak(s: string, sep: Separator, j: nat, b: nat)
    requires j == FirstBreak(s, sep, 0) < |s| && b == j + BreakLen(s, j, sep)
    ensures Split(s, sep) == [s[..j]] + Split(s[b..], sep)
  {
  }

  lemma OccursInSuffix(s: string, b: nat, k: string, i: nat)
    requires b <= |s| && OccursAt(s[b..], k, i)
    ensures OccursAt(s, k, b + i)
  {
    assert s[b + i..b + i + |k|] == s[b..][i..i + |k|];
  }

  /** Every character inside an occurrence belongs to the needle. */
  lemma OccurrenceChars(s: string, k: string, i: nat)
    requires OccursAt(s, k, i)
    ensures forall j :: i <= j < i + |k| ==> s[j] in k
  {
    forall j | i <= j < i + |k|
      ensures s[j] in k
    {
      assert s[j] == s[i..i + |k|][j - i];
    }
  }

  /** A needle without the glue character that occurs in a join occurs in one of the parts. */
  lemma {:induction false} ContainsJoin(parts: seq<string>, c: char, k: string)
    requires |parts| >= 1 && c !in k
    requires Contains(Join(parts, [c]), k)
    ensures exists m :: 0 <= m < |parts| && Contains(parts[m], k)
  {
    var s := Join(parts, [c]);
    var i: nat :| i <= |s| && OccursAt(s, k, i);
    if |parts| == 1 {
      assert Contains(parts[0], k);
    } else {
      var p := parts[0];
      var rest := Join(parts[1..], [c]);
      assert s == p + [c] + rest;
      OccurrenceChars(s, k, i);
      assert s[|p|] == c;
      assert i + |k| <= |p| || i > |p|;
      if i + |k| <= |p| {
        assert p[i..i + |k|] == s[i..i + |k|];
        assert OccursAt(p, k, i);
        assert Contains(parts[0], k);
      } else {
        assert rest[i - |p| - 1..i - |p| - 1 + |k|] == s[i..i + |k|];
        assert OccursAt(rest, k, i - |p| - 1);
        ContainsJoin(parts[1..], c, k);
        var m :| 0 <= m < |parts[1..]| && Contains(parts[1..][m], k);
        assert Contains(parts[m + 1], k);
      }
    }
  }

  // ---------------------------------------------------------------------------
  // Removing characters: str_replace($c, '', $s) and preg_replace('/[...]/u', '', $s)
  // ---------------------------------------------------------------------------

  /** `s` with every character of `cs` deleted, the others kept in order. */
  function Without(s: string, cs: set<char>): (r: string)
    ensures |r| <= |s|
    ensures forall i :: 0 <= i < |r| ==> r[i] !in cs
  {
    if s == [] then [] else (if s[0] in cs then [] else [s[0]]) + Without(s[1..], cs)
  }

  /** Removing characters that do not occur changes nothing. */
  lemma {:induction false} WithoutAbsent(s: string, cs: set<char>)
    requires forall i :: 0 <= i < |s| ==> s[i] !in cs
    ensures Without(s, cs) == s
  {
    if s != [] {
      WithoutAbsent(s[1..], cs);
    }
  }

  lemma {:induction false} WithoutConcat(a: string, b: string, cs: set<char>)
    ensures Without(a + b, cs) == Without(a, cs) + Without(b, cs)
  {
    if a != [] {
      assert (a + b)[1..] == a[1..] + b;
      WithoutConcat(a[1..], b, cs);
    } else {
      assert a + b == b;
    }
  }

  // ---------------------------------------------------------------------------
  // Decimal numbers: intval, sprintf('%d'), sprintf('%0Nd')
  // ---------------------------------------------------------------------------

  predicate IsAsciiDigit(c: char) {
    '0' <= c <= '9'
  }

  predicate AllAsciiDigits(s: string) {
    forall i :: 0 <= i < |s| ==> IsAsciiDigit(s[i])
  }

  const AsciiDigits: set<char> := {'0', '1', '2', '3', '4', '5', '6', '7', '8', '9'}

  function DigitValue(c: char): nat
    requires IsAsciiDigit(c)
  {
    c as int - '0' as int
  }

  function DigitChar(d: nat): (c: char)
    requires d < 10
    ensures IsAsciiDigit(c) && DigitValue(c) == d
  {
    ('0' as int + d) as char
  }

  /** The value of a string of decimal digits, most significant first. */
  function DecimalValue(s: string): nat
    requires AllAsciiDigits(s)
  {
    if s == [] then 0 else DecimalValue(s[..|s| - 1]) * 10 + DigitValue(s[|s| - 1])
  }

  /** sprintf('%d', $n) for a natural number: its shortest decimal form. */
  function NatToString(n: nat): (r: string)
    ensures |r| >= 1 && AllAsciiDigits(r)
    ensures r[0] == '0' ==> n == 0
  {
    if n < 10 then [DigitChar(n)] else NatToString(n / 10) + [DigitChar(n % 10)]
  }

  /** Printing a number and reading it back gives the number. */
  lemma {:induction false} DecimalValueOfNatToString(n: nat)
    ensures DecimalValue(NatToString(n)) == n
  {
    if n >= 10 {
      var s := NatToString(n);
      assert s[..|s| - 1] == NatToString(n / 10);
      DecimalValueOfNatToString(n / 10);
    }
  }

  /** Different numbers print differently. */
  lemma NatToStringInjective(m: nat, n: nat)
    requires NatToString(m) == NatToString(n)
    ensures m == n
  {
    DecimalValueOfNatToString(m);
    DecimalValueOfNatToString(n);
  }

  function Zeros(k: nat): (r: string)
    ensures |r| == k && AllAsciiDigits(r)
  {
    if k == 0 then [] else Zeros(k - 1) + ['0']
  }

  /** sprintf('%0Nd', $n) for a natural number: zero-padded on the left to `width` digits,
      never truncated. */
  function ZeroPad(n: nat, width: nat): (r: string)
    ensures |r| >= width && AllAsciiDigits(r)
  {
    var s := NatToString(n);
    if |s| >= width then s else Zeros(width - |s|) + s
  }

  lemma {:induction false} DecimalValueZeros(k: nat)
    ensures DecimalValue(Zeros(k)) == 0
  {
    if k > 0 {
      assert Zeros(k)[..k - 1] == Zeros(k - 1);
      DecimalValueZeros(k - 1);
    }
  }

  /** Leading zeros do not change the value. */
  lemma {:induction false} DecimalValueLeadingZeros(k: nat, s: string)
    requires AllAsciiDigits(s)
    ensures AllAsciiDigits(Zeros(k) + s) && DecimalValue(Zeros(k) + s) == DecimalValue(s)
    decreases |s|
  {
    var z := Zeros(k) + s;
    if s == [] {
      assert z == Zeros(k);
      DecimalValueZeros(k);
    } else {
      assert z[..|z| - 1] == Zeros(k) + s[..|s| - 1];
      DecimalValueLeadingZeros(k, s[..|s| - 1]);
    }
  }

  /** Zero padding reads back as the padded number. */
  lemma ZeroPadValue(n: nat, width: nat)
    ensures DecimalValue(ZeroPad(n, width)) == n
  {
    DecimalValueOfNatToString(n);
    var s := NatToString(n);
    if |s| < width {
      assert ZeroPad(n, width) == Zeros(width - |s|) + s;
      DecimalValueLeadingZeros(width - |s|, s);
    } else {
      assert ZeroPad(n, width) == s;
    }
  }

  /** preg_replace('/[^0-9]/', '', $s) */
  function KeepAsciiDigits(s: string): (r: string)
    ensures AllAsciiDigits(r) && |r| <= |s|
  {
    if s == [] then [] else (if IsAsciiDigit(s[0]) then [s[0]] else []) + KeepAsciiDigits(s[1..])
  }

  lemma {:induction false} KeepAsciiDigitsOfDigits(s: string)
    requires AllAsciiDigits(s)
    ensures KeepAsciiDigits(s) == s
  {
    if s != [] {
      KeepAsciiDigitsOfDigits(s[1..]);
    }
  }

  /** The whitespace intval() skips before a number (that of C's strtol). */
  predicate IsNumberSpace(c: char) {
    c == ' ' || c == '\t' || c == '\n' || c == '\r' || c == '\U{0B}' || c == '\U{0C}'
  }

  /** The longest prefix made of ASCII digits. */
  function LeadingDigits(s: string): (r: string)
    ensures AllAsciiDigits(r) && r <= s
    ensures |r| < |s| ==> !IsAsciiDigit(s[|r|])
  {
    if s != [] && IsAsciiDigit(s[0]) then [s[0]] + LeadingDigits(s[1..]) else []
  }

  /** intval($s) for a string: leading whitespace, an optional sign, then the longest run of
      digits; 0 when there are none. */
  function IntVal(s: string): int {
    var t := TrimLeftOf(s, set c | c in s && IsNumberSpace(c));
    if t != [] && t[0] == '-' then -(DecimalValue(LeadingDigits(t[1..])) as int)
    else if t != [] && t[0] == '+' then DecimalValue(LeadingDigits(t[1..]))
    else DecimalValue(LeadingDigits(t))
  }

  lemma {:induction false} LeadingDigitsOfDigits(s: string)
    requires AllAsciiDigits(s)
    ensures LeadingDigits(s) == s
  {
    if s != [] {
      LeadingDigitsOfDigits(s[1..]);
    }
  }

  /** intval() reads back what sprintf('%d') printed. */
  lemma IntValOfNatToString(n: nat)
    ensures IntVal(NatToString(n)) == n
  {
    var s := NatToString(n);
    var t := TrimLeftOf(s, set c | c in s && IsNumberSpace(c));
    assert t == s;
    LeadingDigitsOfDigits(s);
    DecimalValueOfNatToString(n);
  }

  // ---------------------------------------------------------------------------
  // PHP truthiness of strings
  // ---------------------------------------------------------------------------

  /** empty($s) for a string: true for "" and "0" only. */
  predicate IsEmptyString(s: string) {
    s == "" || s == "0"
  }

  /** array_filter($xs) over strings: drops "" and "0", keeps the rest in order. */
  function FilterTruthy(xs: seq<string>): (r: seq<string>)
    ensures |r| <= |xs|
    ensures forall i :: 0 <= i < |r| ==> !IsEmptyString(r[i])
  {
    if xs == [] then [] else (if IsEmptyString(xs[0]) then [] else [xs[0]]) + FilterTruthy(xs[1..])
  }

  /** array_filter keeps exactly the truthy elements. */
  lemma {:induction false} FilterTruthyExactly(xs: seq<string>, x: string)
    ensures x in FilterTruthy(xs) <==> x in xs && !IsEmptyString(x)
  {
    if xs != [] {
      FilterTruthyExactly(xs[1..], x);
      assert xs == [xs[0]] + xs[1..];
    }
  }
}
