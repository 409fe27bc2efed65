/** Finding and parsing the expiry date inside a badge's expiry text: the
    `re.search(r'(\w+\s+\d+,\s+\d{4})', ...)` of `check_certification_validity`
    followed by `datetime.strptime(..., "%B %d, %Y")` in the English locale. */
module ExpiryDate {
  import opened Wrappers
  import opened Strings

  /** A calendar day of the proleptic Gregorian calendar, as `datetime` has it. */
  datatype Date = Date(year: int, month: int, day: int)

  predicate IsLeapYear(y: int) {
    y % 4 == 0 && (y % 100 != 0 || y % 400 == 0)
  }

  function DaysInMonth(y: int, m: int): (n: int)
    requires 1 <= m <= 12
    ensures 28 <= n <= 31
    ensures n == 29 <==> m == 2 && IsLeapYear(y)
  {
    if m == 2 then (if IsLeapYear(y) then 29 else 28)
    else if m == 4 || m == 6 || m == 9 || m == 11 then 30
    else 31
  }

  /** The days `datetime` can represent: years 1 to 9999 and a day that
      exists in its month. */
  predicate ValidDate(d: Date) {
    1 <= d.year <= 9999 && 1 <= d.month <= 12 && 1 <= d.day <= DaysInMonth(d.year, d.month)
  }

  /** `a` is an earlier day than `b`. */
  predicate Before(a: Date, b: Date) {
    a.year < b.year
    || (a.year == b.year && a.month < b.month)
    || (a.year == b.year && a.month == b.month && a.day < b.day)
  }

  /** `Before` is a strict total order on days. */
  lemma BeforeStrictTotal(a: Date, b: Date, c: Date)
    ensures !Before(a, a)
    ensures Before(a, b) ==> !Before(b, a)
    ensures Before(a, b) && Before(b, c) ==> Before(a, c)
    ensures a == b || Before(a, b) || Before(b, a)
  {
  }

  // ---------------------------------------------------------------------
  // The search: \w+\s+\d+,\s+\d{4}
  // ---------------------------------------------------------------------

  predicate AllDigits(s: string) {
    forall k :: 0 <= k < |s| ==> IsDigit(s[k])
  }

  /** The three parts of a match that `strptime` reads: the month word, the
      day digits and the four year digits. The whitespace runs between them
      are matched by `\s+` in both patterns and play no further part. */
  datatype DateMatch = DateMatch(word: string, day: string, year: string)

  /** The match of the date pattern that starts at index `i`, if any. Each
      `+` is greedy and backtracking cannot help it: a shorter `\w+`, `\s+`
      or `\d+` leaves a character that the next element of the pattern
      refuses, so every run in a match is the longest one. */
  function MatchAt(s: string, i: nat): (r: Option<DateMatch>)
    requires i <= |s|
  {
    var w := RunEnd(s, i, IsWordChar);
    var sp := RunEnd(s, w, IsSpace);
    var dg := RunEnd(s, sp, IsDigit);
    if w == i || sp == w || dg == sp || dg == |s| || s[dg] != ',' then None
    else
      var sp2 := RunEnd(s, dg + 1, IsSpace);
      if sp2 == dg + 1 || sp2 + 4 > |s| || !AllDigits(s[sp2..sp2 + 4]) then None
      else Some(DateMatch(s[i..w], s[sp..dg], s[sp2..sp2 + 4]))
  }

  /** Every match carries a non-empty word, non-empty day digits and four
      year digits. */
  lemma MatchAtShape(s: string, i: nat)
    requires i <= |s| && MatchAt(s, i).Some?
    ensures var m := MatchAt(s, i).value;
            m.word != [] && (forall k :: 0 <= k < |m.word| ==> IsWordChar(m.word[k]))
            && m.day != [] && AllDigits(m.day) && |m.year| == 4 && AllDigits(m.year)
  {
  }

  function SearchFrom(s: string, i: nat): Option<DateMatch>
    requires i <= |s|
    decreases |s| - i
  {
    var m := MatchAt(s, i);
    if m.Some? || i == |s| then m else SearchFrom(s, i + 1)
  }

  /** `re.search`: the match that starts leftmost. */
  function SearchDate(s: string): Option<DateMatch> {
    SearchFrom(s, 0)
  }

  /** A text without a digit holds no date. */
  lemma {:induction false} NoDigitsNoMatch(s: string, i: nat)
    requires i <= |s|
    requires forall k :: 0 <= k < |s| ==> !IsDigit(s[k])
    ensures SearchFrom(s, i) == None
    decreases |s| - i
  {
    var w := RunEnd(s, i, IsWordChar);
    var sp := RunEnd(s, w, IsSpace);
    assert RunEnd(s, sp, IsDigit) == sp;
    if i < |s| {
      NoDigitsNoMatch(s, i + 1);
    }
  }

  /** No match starts inside a digit-free prefix `s[..n]` that ends in a
      non-word character and is followed by a character that is neither
      whitespace nor a digit. */
  lemma NoMatchInPrefix(s: string, n: nat, i: nat)
    requires i < n <= |s|
    requires forall k :: 0 <= k < n ==> !IsDigit(s[k])
    requires !IsWordChar(s[n - 1])
    requires n < |s| ==> !IsSpace(s[n]) && !IsDigit(s[n])
    ensures MatchAt(s, i) == None
  {
    var w := RunEnd(s, i, IsWordChar);
    assert w <= n - 1;
    var sp := RunEnd(s, w, IsSpace);
    assert sp <= n;
    assert RunEnd(s, sp, IsDigit) == sp;
  }

  /** No match starts at `k`. */
  predicate NoMatchAt(s: string, k: nat)
    requires k <= |s|
  {
    MatchAt(s, k) == None
  }

  /** The search passes over starting points where no match starts. */
  lemma {:induction false} SearchSkipsPrefix(s: string, n: nat, i: nat)
    requires i <= n <= |s|
    requires forall k {:trigger NoMatchAt(s, k)} :: i <= k < n ==> NoMatchAt(s, k)
    ensures SearchFrom(s, i) == SearchFrom(s, n)
    decreases n - i
  {
    if i < n {
      SearchStep(s, i);
      SearchSkipsPrefix(s, n, i + 1);
    }
  }

  lemma SearchStep(s: string, i: nat)
    requires i < |s| && NoMatchAt(s, i)
    ensures SearchFrom(s, i) == SearchFrom(s, i + 1)
  {
  }

  /** `m` is what the search returns when it starts at index 0: a match
      starts at `j` and none starts earlier. */
  predicate FoundDate(s: string, j: nat, m: DateMatch) {
    j <= |s| && MatchAt(s, j) == Some(m)
    && forall k {:trigger NoMatchAt(s, k)} :: 0 <= k < j ==> NoMatchAt(s, k)
  }

  /** The text of the match `m` at `j`, read against `\w+\s+\d+,\s+\d{4}`:
      a word of word characters, a non-empty whitespace run `g1`, day
      digits, a comma, a non-empty whitespace run `g2` and four year digits. */
  predicate MatchText(s: string, j: nat, m: DateMatch, g1: string, g2: string) {
    m.word != [] && (forall k :: 0 <= k < |m.word| ==> IsWordChar(m.word[k]))
    && g1 != [] && AllSpace(g1)
    && m.day != [] && AllDigits(m.day)
    && g2 != [] && AllSpace(g2)
    && |m.year| == 4 && AllDigits(m.year)
    && OccursAt(s, j, m.word + g1 + m.day + "," + g2 + m.year)
  }

  /** The converse of `SearchAfterPrefix`: whatever the search returns is the
      leftmost match, and the text holds it as the pattern describes. */
  lemma SearchDateShape(s: string, m: DateMatch)
    requires SearchDate(s) == Some(m)
    ensures exists j: nat :: FoundDate(s, j, m)
              && exists g1: string, g2: string :: MatchText(s, j, m, g1, g2)
  {
    var j := SearchFromFound(s, 0, m);
    var g1, g2 := MatchAtText(s, j);
    FoundWitness(s, j, m, g1, g2);
  }

  lemma FoundWitness(s: string, j: nat, m: DateMatch, g1: string, g2: string)
    requires FoundDate(s, j, m) && MatchText(s, j, m, g1, g2)
    ensures exists j: nat :: FoundDate(s, j, m)
              && exists g1: string, g2: string :: MatchText(s, j, m, g1, g2)
  {
  }

  /** The search started at `i`, past indices where nothing matches, returns
      the match at the first index from `i` on where one starts. */
  lemma {:induction false} SearchFromFound(s: string, i: nat, m: DateMatch) returns (j: nat)
    requires i <= |s| && SearchFrom(s, i) == Some(m)
    requires forall k {:trigger NoMatchAt(s, k)} :: 0 <= k < i ==> NoMatchAt(s, k)
    ensures i <= j && FoundDate(s, j, m)
    decreases |s| - i
  {
    SearchFromCases(s, i);
    if NoMatchAt(s, i) {
      NoMatchUpTo(s, i);
      j := SearchFromFound(s, i + 1, m);
    } else {
      j := i;
    }
  }

  lemma NoMatchUpTo(s: string, i: nat)
    requires i <= |s| && NoMatchAt(s, i)
    requires forall k {:trigger NoMatchAt(s, k)} :: 0 <= k < i ==> NoMatchAt(s, k)
    ensures forall k {:trigger NoMatchAt(s, k)} :: 0 <= k < i + 1 ==> NoMatchAt(s, k)
  {
  }

  lemma SearchFromCases(s: string, i: nat)
    requires i <= |s|
    ensures NoMatchAt(s, i) && i == |s| ==> SearchFrom(s, i) == None
    ensures NoMatchAt(s, i) && i < |s| ==> SearchFrom(s, i) == SearchFrom(s, i + 1)
    ensures !NoMatchAt(s, i) ==> SearchFrom(s, i) == MatchAt(s, i)
  {
  }

  /** The match at `j` as text, with the two whitespace runs it spans. */
  lemma MatchAtText(s: string, j: nat) returns (g1: string, g2: string)
    requires j <= |s| && MatchAt(s, j).Some?
    ensures MatchText(s, j, MatchAt(s, j).value, g1, g2)
  {
    MatchAtShape(s, j);
    var w := RunEnd(s, j, IsWordChar);
    var sp := RunEnd(s, w, IsSpace);
    var dg := RunEnd(s, sp, IsDigit);
    var sp2 := RunEnd(s, dg + 1, IsSpace);
    g1 := s[w..sp];
    g2 := s[dg + 1..sp2];
    assert s[dg..dg + 1] == ",";
    SliceChain(s, j, w, sp, dg, dg + 1, sp2, sp2 + 4);
  }

  lemma SliceChain(s: string, a: nat, b: nat, c: nat, d: nat, e: nat, f: nat, g: nat)
    requires a <= b <= c <= d <= e <= f <= g <= |s|
    ensures s[a..g] == s[a..b] + s[b..c] + s[c..d] + s[d..e] + s[e..f] + s[f..g]
  {
    SliceSplit(s, a, f, g);
    SliceSplit(s, a, e, f);
    SliceSplit(s, a, d, e);
    SliceSplit(s, a, c, d);
    SliceSplit(s, a, b, c);
  }

  /** The text of a date as the pattern wants it: a word, one space, the day
      digits, a comma and a space, and four year digits. */
  function DateText(word: string, day: string, year: string): string {
    word + " " + day + ", " + year
  }

  /** Where the pieces of `p + DateText(word, day, year) + q` sit. */
  lemma DateTextLayout(s: string, p: string, word: string, day: string, year: string, q: string)
    requires s == p + DateText(word, day, year) + q
    ensures var b := |p| + |word|;
            var e := b + 1 + |day|;
            |s| == e + 2 + |year| + |q|
            && s[..|p|] == p && s[|p|..b] == word && s[b] == ' '
            && s[b + 1..e] == day && s[e] == ',' && s[e + 1] == ' '
            && s[e + 2..e + 2 + |year|] == year
  {
    assert s == p + word + [' '] + day + [',', ' '] + year + q;
  }

  /** A match laid out as a word `s[i..b]`, one space, digits `s[b + 1..e]`,
      a comma, one space and four digits. */
  lemma MatchAtLayout(s: string, i: nat, b: nat, e: nat)
    requires i < b && b + 1 < e && e + 6 <= |s|
    requires forall k :: i <= k < b ==> IsWordChar(s[k])
    requires s[b] == ' ' && s[e] == ',' && s[e + 1] == ' '
    requires forall k :: b + 1 <= k < e ==> IsDigit(s[k])
    requires AllDigits(s[e + 2..e + 6])
    ensures MatchAt(s, i) == Some(DateMatch(s[i..b], s[b + 1..e], s[e + 2..e + 6]))
  {
    RunEndAt(s, i, b, IsWordChar);
    RunEndAt(s, b, b + 1, IsSpace);
    RunEndAt(s, b + 1, e, IsDigit);
    assert IsDigit(s[e + 2..e + 6][0]);
    RunEndAt(s, e + 1, e + 2, IsSpace);
  }

  /** The match found where a word, a space, day digits, ", " and four year
      digits sit side by side. */
  lemma MatchAtPieces(s: string, i: nat, word: string, day: string, year: string)
    requires word != [] && forall k :: 0 <= k < |word| ==> IsWordChar(word[k])
    requires day != [] && AllDigits(day)
    requires |year| == 4 && AllDigits(year)
    requires i + |word| + |day| + 7 <= |s|
    requires s[i..i + |word|] == word && s[i + |word|] == ' '
    requires s[i + |word| + 1..i + |word| + 1 + |day|] == day
    requires s[i + |word| + 1 + |day|] == ',' && s[i + |word| + 2 + |day|] == ' '
    requires s[i + |word| + |day| + 3..i + |word| + |day| + 7] == year
    ensures MatchAt(s, i) == Some(DateMatch(word, day, year))
  {
    var b := i + |word|;
    var e := b + 1 + |day|;
    SliceAll(s, i, b, word, IsWordChar);
    SliceAll(s, b + 1, e, day, IsDigit);
    MatchAtLayout(s, i, b, e);
  }

  /** After a prefix that has no digit and does not end in a word character,
      the search finds the date text that follows, whatever comes after it. */
  lemma SearchAfterPrefix(p: string, word: string, day: string, year: string, q: string)
    requires forall k :: 0 <= k < |p| ==> !IsDigit(p[k])
    requires p == [] || !IsWordChar(p[|p| - 1])
    requires word != [] && forall k :: 0 <= k < |word| ==> IsWordChar(word[k])
    requires !IsDigit(word[0])
    requires day != [] && AllDigits(day)
    requires |year| == 4 && AllDigits(year)
    ensures SearchDate(p + DateText(word, day, year) + q) == Some(DateMatch(word, day, year))
  {
    var s := p + DateText(word, day, year) + q;
    SearchInText(s, p, word, day, year, q);
  }

  lemma SearchInText(s: string, p: string, word: string, day: string, year: string, q: string)
    requires s == p + DateText(word, day, year) + q
    requires forall k :: 0 <= k < |p| ==> !IsDigit(p[k])
    requires p == [] || !IsWordChar(p[|p| - 1])
    requires word != [] && forall k :: 0 <= k < |word| ==> IsWordChar(word[k])
    requires !IsDigit(word[0])
    requires day != [] && AllDigits(day)
    requires |year| == 4 && AllDigits(year)
    ensures SearchDate(s) == Some(DateMatch(word, day, year))
  {
    DateTextLayout(s, p, word, day, year, q);
    assert forall k :: 0 <= k < |p| ==> s[k] == p[k] by {
      forall k | 0 <= k < |p| ensures s[k] == p[k] { assert s[k] == s[..|p|][k]; }
    }
    assert s[|p|] == word[0] by { assert s[|p|..|p| + |word|][0] == word[0]; }
    SearchAfterLayout(s, |p|, word, day, year);
  }

  lemma SearchAfterLayout(s: string, n: nat, word: string, day: string, year: string)
    requires word != [] && forall k :: 0 <= k < |word| ==> IsWordChar(word[k])
    requires !IsDigit(word[0])
    requires day != [] && AllDigits(day)
    requires |year| == 4 && AllDigits(year)
    requires n + |word| + |day| + 7 <= |s|
    requires forall k :: 0 <= k < n ==> !IsDigit(s[k])
    requires n == 0 || !IsWordChar(s[n - 1])
    requires s[n..n + |word|] == word && s[n + |word|] == ' '
    requires s[n + |word| + 1..n + |word| + 1 + |day|] == day
    requires s[n + |word| + 1 + |day|] == ',' && s[n + |word| + 2 + |day|] == ' '
    requires s[n + |word| + |day| + 3..n + |word| + |day| + 7] == year
    ensures SearchDate(s) == Some(DateMatch(word, day, year))
  {
    MatchAtPieces(s, n, word, day, year);
    assert s[n] == word[0] by { assert s[n..n + |word|][0] == word[0]; }
    forall i | 0 <= i < n ensures NoMatchAt(s, i) {
      NoMatchInPrefix(s, n, i);
    }
    SearchSkipsPrefix(s, n, 0);
  }

  // ---------------------------------------------------------------------
  // strptime(..., "%B %d, %Y")
  // ---------------------------------------------------------------------

  /** The full month names of the English locale, lower-cased as `strptime`
      compares them. */
  const MonthNames: seq<string> := ["january", "february", "march", "april", "may", "june",
    "july", "august", "september", "october", "november", "december"]

  function FindFrom(names: seq<string>, w: string, k: nat): (r: Option<nat>)
    requires k <= |names|
    ensures r.Some? ==> k <= r.value < |names| && names[r.value] == w
                        && forall j :: k <= j < r.value ==> names[j] != w
    ensures r.None? ==> forall j :: k <= j < |names| ==> names[j] != w
    decreases |names| - k
  {
    if k == |names| then None
    else if names[k] == w then Some(k)
    else FindFrom(names, w, k + 1)
  }

  /** The number of the month a lower-cased word names (`%B`), if any. */
  function MonthNumber(lowered: string): (m: Option<int>)
    ensures m.Some? ==> 1 <= m.value <= 12 && MonthNames[m.value - 1] == lowered
    ensures m.None? <==> lowered !in MonthNames
  {
    match FindFrom(MonthNames, lowered, 0)
    case Some(k) => Some(k + 1)
    case None => None
  }

  /** The twelve month names are distinct, so each one gives back its number. */
  lemma MonthNumberOfName(k: nat)
    requires k < 12
    ensures MonthNumber(MonthNames[k]) == Some(k + 1)
  {
  }

  function DigitValue(c: char): nat {
    if IsDigit(c) then c as int - '0' as int else 0
  }

  /** The number a string of decimal digits denotes (`int(...)`). */
  function DigitsValue(ds: string): nat {
    if ds == [] then 0 else DigitsValue(ds[..|ds| - 1]) * 10 + DigitValue(ds[|ds| - 1])
  }

  /** What `strptime` makes of a match: `None` where it raises `ValueError`.
      The month word must be a full month name in any case; the day must be
      one or two digits between 1 and 31 (the `%d` pattern is
      `3[01]|[12]\d|0[1-9]|[1-9]`); year 0 and a day past the end of its
      month are refused by `datetime`. */
  function ParseDate(m: DateMatch): (r: Option<Date>)
    ensures r.Some? ==> ValidDate(r.value)
  {
    var month := MonthNumber(Lower(m.word));
    var day := DigitsValue(m.day);
    var year := DigitsValue(m.year);
    if month.None? || !(1 <= |m.day| <= 2) || day < 1 || year < 1 || year > 9999 then None
    else if day > DaysInMonth(year, month.value) then None
    else Some(Date(year, month.value, day))
  }

  // ---------------------------------------------------------------------
  // The text Credly shows for a date, and the round trip
  // ---------------------------------------------------------------------

  function DigitChar(n: nat): (c: char)
    requires n < 10
    ensures IsDigit(c) && DigitValue(c) == n
  {
    ('0' as int + n) as char
  }

  /** The decimal text of `n`, without leading zeros. */
  function NatText(n: nat): (t: string)
    ensures t != [] && AllDigits(t)
    ensures n < 10 ==> |t| == 1
    ensures 10 <= n < 100 ==> |t| == 2
    decreases n
  {
    if n < 10 then [DigitChar(n)] else NatText(n / 10) + [DigitChar(n % 10)]
  }

  lemma {:induction false} NatTextValue(n: nat)
    ensures DigitsValue(NatText(n)) == n
    decreases n
  {
    if n >= 10 {
      var t := NatText(n);
      assert t[..|t| - 1] == NatText(n / 10);
      NatTextValue(n / 10);
    }
  }

  /** A year as `%Y` writes it: four digits, zero-padded. */
  function YearText(y: nat): (t: string)
    requires y <= 9999
    ensures |t| == 4 && AllDigits(t)
  {
    [DigitChar(y / 1000), DigitChar(y / 100 % 10), DigitChar(y / 10 % 10), DigitChar(y % 10)]
  }

  lemma YearTextValue(y: nat)
    requires y <= 9999
    ensures DigitsValue(YearText(y)) == y
  {
    var t := YearText(y);
    assert t[..1][..0] == [] && t[..2][..1] == t[..1] && t[..3][..2] == t[..2] && t[..3] == t[..|t| - 1];
    assert DigitsValue(t[..1]) == y / 1000;
    assert DigitsValue(t[..2]) == y / 1000 * 10 + y / 100 % 10 == y / 100;
    assert DigitsValue(t[..3]) == y / 100 * 10 + y / 10 % 10 == y / 10;
  }

  function UpperChar(c: char): char {
    if 'a' <= c <= 'z' then (c as int - 32) as char else c
  }

  /** A month as `%B` writes it, e.g. "September". */
  function MonthTitle(month: int): (t: string)
    requires 1 <= month <= 12
    ensures t != [] && !IsDigit(t[0])
    ensures forall k :: 0 <= k < |t| ==> IsWordChar(t[k])
    ensures Lower(t) == MonthNames[month - 1]
  {
    MonthNameLetters(month - 1);
    Capitalize(MonthNames[month - 1])
  }

  /** A lower-case word with its first letter in upper case. */
  function Capitalize(name: string): (t: string)
    requires name != [] && forall j :: 0 <= j < |name| ==> 'a' <= name[j] <= 'z'
    ensures t != [] && !IsDigit(t[0])
    ensures forall k :: 0 <= k < |t| ==> IsWordChar(t[k])
    ensures Lower(t) == name
  {
    var t := [UpperChar(name[0])] + name[1..];
    assert forall k :: 1 <= k < |t| ==> t[k] == name[k];
    assert Lower(t) == name by {
      forall k | 0 <= k < |t| ensures Lower(t)[k] == name[k] { }
    }
    t
  }

  lemma MonthNameLetters(k: nat)
    requires k < 12
    ensures MonthNames[k] != []
    ensures forall j :: 0 <= j < |MonthNames[k]| ==> 'a' <= MonthNames[k][j] <= 'z'
  {
  }

  /** A valid date as the badge page shows it, e.g. "September 26, 2027". */
  function FormatDate(d: Date): string
    requires ValidDate(d)
  {
    DateText(MonthTitle(d.month), NatText(d.day), YearText(d.year))
  }

  /** Parsing what `FormatDate` writes gives the date back. */
  lemma ParseFormatted(d: Date)
    requires ValidDate(d)
    ensures ParseDate(DateMatch(MonthTitle(d.month), NatText(d.day), YearText(d.year))) == Some(d)
  {
    MonthNumberOfName(d.month - 1);
    NatTextValue(d.day);
    YearTextValue(d.year);
  }

  /** Round trip: after a digit-free prefix such as "Expires: ", the search
      finds a formatted date and `strptime` gives that date back. */
  lemma SearchFormatted(p: string, d: Date, q: string)
    requires ValidDate(d)
    requires forall k :: 0 <= k < |p| ==> !IsDigit(p[k])
    requires p == [] || !IsWordChar(p[|p| - 1])
    ensures SearchDate(p + FormatDate(d) + q).Some?
    ensures ParseDate(SearchDate(p + FormatDate(d) + q).value) == Some(d)
  {
    SearchAfterPrefix(p, MonthTitle(d.month), NatText(d.day), YearText(d.year), q);
    ParseFormatted(d);
  }

  /** How the badge page writes two dates. */
  lemma FormatDateExamples()
    ensures FormatDate(Date(2027, 9, 26)) == "September 26, 2027"
    ensures FormatDate(Date(2023, 1, 15)) == "January 15, 2023"
  {
    MonthTitleExamples();
    NatTextExamples();
    YearTextExamples();
  }

  lemma MonthTitleExamples()
    ensures MonthTitle(9) == "September" && MonthTitle(1) == "January"
  {
    MonthTitleSeptember();
    MonthTitleJanuary();
  }

  lemma MonthTitleSeptember()
    ensures MonthTitle(9) == "September"
  {
    assert MonthNames[8] == "september" && UpperChar('s') == 'S';
    assert MonthTitle(9) == ['S'] + "september"[1..];
  }

  lemma MonthTitleJanuary()
    ensures MonthTitle(1) == "January"
  {
    assert MonthNames[0] == "january" && UpperChar('j') == 'J';
    assert MonthTitle(1) == ['J'] + "january"[1..];
  }

  lemma NatTextExamples()
    ensures NatText(26) == "26" && NatText(15) == "15"
  {
    assert NatText(2) == ['2'] && DigitChar(6) == '6';
    assert NatText(1) == ['1'] && DigitChar(5) == '5';
  }

  lemma YearTextExamples()
    ensures YearText(2027) == "2027" && YearText(2023) == "2023"
  {
    assert DigitChar(2) == '2' && DigitChar(0) == '0' && DigitChar(7) == '7' && DigitChar(3) == '3';
  }
}
