/**
 * `parse_date` of the Greek calendar scrapers: the first match of
 * `DATE_RE = (\d{1,2})\s+([Α-Ωα-ωΐάέήίόύώ]+)\s+(\d{4})`, the `GREEK_MONTHS`
 * table of genitive month names, and `datetime.strptime(.., "%d %B %Y")`.
 */
module GreekDate {
  import opened Optional
  import opened Text
  import opened Dates

  /** The keys of `GREEK_MONTHS`, in calendar order: January is `Months[0]`. */
  const Months: seq<string> := [
    "Ιανουαρίου", "Φεβρουαρίου", "Μαρτίου", "Απριλίου", "Μαΐου", "Ιουνίου",
    "Ιουλίου", "Αυγούστου", "Σεπτεμβρίου", "Οκτωβρίου", "Νοεμβρίου", "Δεκεμβρίου"]

  /** The class `[Α-Ωα-ωΐάέήίόύώ]`. */
  predicate IsGreekLetter(c: char)
  {
    '\U{391}' <= c <= '\U{3A9}' || '\U{3B1}' <= c <= '\U{3C9}' ||
    c == '\U{390}' || '\U{3AC}' <= c <= '\U{3AF}' || '\U{3CC}' <= c <= '\U{3CE}'
  }

  function MonthFrom(word: string, k: nat): (r: Option<int>)
    requires k <= |Months|
    ensures r.Some? <==> word in Months[k..]
    ensures r.Some? ==> k < r.value <= |Months| && Months[r.value - 1] == word
    decreases |Months| - k
  {
    if k == |Months| then None
    else if Months[k] == word then Some(k + 1)
    else assert Months[k..] == [Months[k]] + Months[k + 1..]; MonthFrom(word, k + 1)
  }

  /** The month number of a `GREEK_MONTHS` key: one more than its position in the table. */
  function MonthNumber(word: string): (r: Option<int>)
    ensures r.Some? <==> word in Months
    ensures r.Some? ==> 1 <= r.value <= 12 && Months[r.value - 1] == word
  {
    assert Months[0..] == Months;
    MonthFrom(word, 0)
  }

  /** The twelve names are distinct Greek words, so each maps back to its own position. */
  lemma MonthNumberOfName(k: nat)
    requires k < 12
    ensures MonthNumber(Months[k]) == Some(k + 1)
  {
    var r := MonthNumber(Months[k]).value;
    if r - 1 != k {
      MonthsDistinct(r - 1, k);
    }
  }

  /** No two names share both their length and their fourth letter. */
  lemma MonthsDistinct(i: nat, j: nat)
    requires i < 12 && j < 12 && i != j
    ensures Months[i] != Months[j]
  {
    assert |Months[i]| != |Months[j]| || Months[i][3] != Months[j][3];
  }

  /**
   * One match of DATE_RE, by position: the day is `s[start..dayEnd]`, the
   * month word `s[wordStart..wordEnd]`, the year `s[yearStart..yearStart + 4]`.
   */
  datatype DateMatch = DateMatch(start: nat, dayEnd: nat, wordStart: nat, wordEnd: nat, yearStart: nat)

  /** `m` is a way for DATE_RE to match `s` at `m.start`. */
  predicate IsDateMatch(s: string, m: DateMatch)
  {
    m.start < m.dayEnd <= m.start + 2 && m.dayEnd < m.wordStart < m.wordEnd < m.yearStart &&
    AllIn(s, m.start, m.dayEnd, IsDigit) &&
    AllIn(s, m.dayEnd, m.wordStart, IsSpace) &&
    AllIn(s, m.wordStart, m.wordEnd, IsGreekLetter) &&
    AllIn(s, m.wordEnd, m.yearStart, IsSpace) &&
    AllIn(s, m.yearStart, m.yearStart + 4, IsDigit)
  }

  /** The regex engine at position `i`: greedy runs, whose classes are disjoint, so there is no backtracking to do. */
  function MatchAt(s: string, i: nat): (r: Option<DateMatch>)
    requires i <= |s|
    ensures r.Some? ==> r.value.start == i && IsDateMatch(s, r.value)
  {
    if i < |s| && IsDigit(s[i]) then
      var dayEnd := if i + 1 < |s| && IsDigit(s[i + 1]) then i + 2 else i + 1;
      var wordStart := RunEnd(s, dayEnd, IsSpace);
      var wordEnd := RunEnd(s, wordStart, IsGreekLetter);
      var yearStart := RunEnd(s, wordEnd, IsSpace);
      if dayEnd < wordStart < wordEnd < yearStart && yearStart + 4 <= |s| && AllIn(s, yearStart, yearStart + 4, IsDigit)
      then Some(DateMatch(i, dayEnd, wordStart, wordEnd, yearStart))
      else None
    else None
  }

  /** Digits, white space and Greek letters are three disjoint classes. */
  lemma ClassesDisjoint(c: char)
    ensures IsGreekLetter(c) ==> !IsSpace(c) && !IsDigit(c)
    ensures IsSpace(c) ==> !IsDigit(c)
  {
  }

  /** Every way DATE_RE can match at a position is the one the engine finds: matches are unique per position. */
  lemma MatchAtComplete(s: string, m: DateMatch)
    requires IsDateMatch(s, m)
    ensures MatchAt(s, m.start) == Some(m)
  {
    var i := m.start;
    assert IsDigit(s[i]);
    if m.dayEnd == i + 1 {
      ClassesDisjoint(s[i + 1]);
    } else {
      assert IsDigit(s[i + 1]);
    }
    ClassesDisjoint(s[m.wordStart]);
    ClassesDisjoint(s[m.wordEnd]);
    ClassesDisjoint(s[m.yearStart]);
    RunEndIs(s, m.dayEnd, m.wordStart, IsSpace);
    RunEndIs(s, m.wordStart, m.wordEnd, IsGreekLetter);
    RunEndIs(s, m.wordEnd, m.yearStart, IsSpace);
  }

  /** `DATE_RE.search(s[from..])`: the leftmost match at or after `from`. */
  function Search(s: string, from: nat): (r: Option<DateMatch>)
    requires from <= |s|
    ensures r.Some? ==> IsDateMatch(s, r.value) && from <= r.value.start
    ensures forall m :: IsDateMatch(s, m) && from <= m.start ==> r.Some? && r.value.start <= m.start
    decreases |s| - from
  {
    match MatchAt(s, from)
    case Some(m) => Some(m)
    case None =>
      assert forall m :: IsDateMatch(s, m) ==> m.start != from by {
        forall m | IsDateMatch(s, m) ensures m.start != from { MatchAtComplete(s, m); }
      }
      if from == |s| then None else Search(s, from + 1)
  }

  /** The leftmost match is the one `search` returns. */
  lemma SearchFindsLeftmost(s: string, m: DateMatch)
    requires IsDateMatch(s, m)
    requires forall m' :: IsDateMatch(s, m') ==> m.start <= m'.start
    ensures Search(s, 0) == Some(m)
  {
    var r := Search(s, 0);
    assert r.Some? && r.value.start <= m.start;
    assert IsDateMatch(s, r.value);
    assert r.value.start == m.start;
    MatchAtComplete(s, m);
    MatchAtComplete(s, r.value);
  }

  /** What `parse_date` yields: `None`, a datetime, or the `ValueError` that `strptime` raises. */
  datatype DateOutcome = NoDate | Parsed(date: Date) | Invalid

  /** The matched month word (group 2). */
  function WordOf(s: string, m: DateMatch): string
    requires IsDateMatch(s, m)
  {
    s[m.wordStart..m.wordEnd]
  }

  /** The matched day as a number (group 1). */
  function DayOf(s: string, m: DateMatch): nat
    requires IsDateMatch(s, m)
  {
    assert AllDigits(s[m.start..m.dayEnd]);
    Value(s[m.start..m.dayEnd])
  }

  /** The matched year as a number (group 3). */
  function YearOf(s: string, m: DateMatch): nat
    requires IsDateMatch(s, m)
  {
    assert AllDigits(s[m.yearStart..m.yearStart + 4]);
    Value(s[m.yearStart..m.yearStart + 4])
  }

  /** What `parse_date` does once the match is fixed: look the word up, then let `strptime` build the date. */
  function Convert(s: string, m: DateMatch): (r: DateOutcome)
    requires IsDateMatch(s, m)
    ensures r.NoDate? <==> MonthNumber(WordOf(s, m)).None?
    ensures r.Parsed? ==> Valid(r.date) && MonthNumber(WordOf(s, m)) == Some(r.date.month)
    ensures r.Invalid? ==> !ValidDate(YearOf(s, m), MonthNumber(WordOf(s, m)).value, DayOf(s, m))
  {
    match MonthNumber(WordOf(s, m))
    case None => NoDate
    case Some(month) =>
      // "%d" accepts 1..31 (with an optional leading zero), "%Y" four digits,
      // and the final date construction rejects a day past the end of the month.
      if ValidDate(YearOf(s, m), month, DayOf(s, m)) then Parsed(Date(YearOf(s, m), month, DayOf(s, m))) else Invalid
  }

  /** `parse_date(text)`. */
  function ParseGreekDate(text: string): (r: DateOutcome)
    ensures r.Parsed? ==> Valid(r.date)
  {
    match Search(text, 0)
    case None => NoDate
    case Some(m) => Convert(text, m)
  }

  /** No DATE_RE match at all: `parse_date` returns `None`. */
  lemma ParseWithoutMatch(text: string)
    requires forall m :: !IsDateMatch(text, m)
    ensures ParseGreekDate(text) == NoDate
  {
  }

  /**
   * Only the first DATE_RE match is looked at: an unknown month word gives
   * `None` whatever follows it; a known one gives the date of that day, month
   * and year, or `Invalid` (strptime's `ValueError`) when no such date exists.
   */
  lemma {:induction false} ParseFirstMatch(text: string, m: DateMatch)
    requires IsDateMatch(text, m)
    requires forall m' :: IsDateMatch(text, m') ==> m.start <= m'.start
    ensures WordOf(text, m) !in Months ==> ParseGreekDate(text) == NoDate
    ensures WordOf(text, m) in Months ==>
      var month := MonthNumber(WordOf(text, m)).value;
      ParseGreekDate(text) ==
        if ValidDate(YearOf(text, m), month, DayOf(text, m)) then Parsed(Date(YearOf(text, m), month, DayOf(text, m)))
        else Invalid
  {
    SearchFindsLeftmost(text, m);
    assert ParseGreekDate(text) == Convert(text, m);
  }

  /**
   * A heading such as "Κυριακή 4 Ιανουαρίου 2026": a prefix without digits,
   * then day, white space, a Greek word, white space and a four-digit year,
   * then anything. The result depends on that first run only.
   */
  lemma {:induction false} ParseHeading(prefix: string, day: string, sep1: string, word: string,
                                        sep2: string, year: string, suffix: string)
    requires forall k :: 0 <= k < |prefix| ==> !IsDigit(prefix[k])
    requires 1 <= |day| <= 2 && AllDigits(day) && |year| == 4 && AllDigits(year)
    requires |sep1| > 0 && AllIn(sep1, 0, |sep1|, IsSpace) && |sep2| > 0 && AllIn(sep2, 0, |sep2|, IsSpace)
    requires |word| > 0 && AllIn(word, 0, |word|, IsGreekLetter)
    ensures word !in Months ==> ParseGreekDate(prefix + day + sep1 + word + sep2 + year + suffix) == NoDate
    ensures word in Months ==>
      var month := MonthNumber(word).value;
      ParseGreekDate(prefix + day + sep1 + word + sep2 + year + suffix) ==
        if ValidDate(Value(year), month, Value(day)) then Parsed(Date(Value(year), month, Value(day))) else Invalid
  {
    var text := prefix + day + sep1 + word + sep2 + year + suffix;
    var a := |prefix|;
    var b := a + |day|;
    var c := b + |sep1|;
    var d := c + |word|;
    var e := d + |sep2|;
    assert text[a..b] == day;
    assert text[c..d] == word;
    assert text[e..e + 4] == year;
    assert forall k :: b <= k < c ==> text[k] == sep1[k - b];
    assert forall k :: d <= k < e ==> text[k] == sep2[k - d];
    var m := DateMatch(a, b, c, d, e);
    assert IsDateMatch(text, m);
    assert forall k :: 0 <= k < a ==> text[k] == prefix[k];
    assert forall m' :: IsDateMatch(text, m') ==> IsDigit(text[m'.start]);
    ParseFirstMatch(text, m);
  }

  lemma ValueOfDays()
    ensures Value("4") == 4 && Value("29") == 29 && Value("31") == 31
  {
    assert "29"[..1] == "2" && "31"[..1] == "3";
  }

  lemma ValueOfYear()
    ensures Value("2026") == 2026
  {
    assert "2026"[..3] == "202" && "202"[..2] == "20" && "20"[..1] == "2";
  }

  /** A Sunday heading of the 2026 calendar parses to its date. */
  lemma SundayHeadingParses()
    ensures ParseGreekDate("Κυριακή 4 Ιανουαρίου 2026") == Parsed(Date(2026, 1, 4))
  {
    assert "Κυριακή 4 Ιανουαρίου 2026" == "Κυριακή " + "4" + " " + "Ιανουαρίου" + " " + "2026" + "";
    ParseHeading("Κυριακή ", "4", " ", "Ιανουαρίου", " ", "2026", "");
    ValueOfDays();
    ValueOfYear();
    MonthNumberOfName(0);
    assert Months[0] == "Ιανουαρίου";
  }

  /** 31 April does not exist: `strptime` raises rather than inventing a date. */
  lemma ThirtyFirstOfAprilRaises()
    ensures ParseGreekDate("Πέμπτη " + "31" + " " + "Απριλίου" + " " + "2026" + "") == Invalid
  {
    ParseHeading("Πέμπτη ", "31", " ", "Απριλίου", " ", "2026", "");
    ValueOfDays();
    ValueOfYear();
    MonthNumberOfName(3);
    assert Months[3] == "Απριλίου";
  }

  /** 2026 is not a leap year, and the valid date later in the text is never tried. */
  lemma TwentyNinthOfFebruaryRaises()
    ensures ParseGreekDate("Κυριακή " + "29" + " " + "Φεβρουαρίου" + " " + "2026" + " και 1 Μαρτίου 2026") == Invalid
  {
    ParseHeading("Κυριακή ", "29", " ", "Φεβρουαρίου", " ", "2026", " και 1 Μαρτίου 2026");
    ValueOfDays();
    ValueOfYear();
    MonthNumberOfName(1);
    assert Months[1] == "Φεβρουαρίου";
  }

  /** A nominative month name is not a key of the table: `None`, although a genitive date follows. */
  lemma NominativeMonthIsNoDate()
    ensures ParseGreekDate("Κυριακή " + "4" + " " + "Ιανουάριος" + " " + "2026" + ", 5 Ιανουαρίου 2026") == NoDate
  {
    assert "Ιανουάριος" !in Months by {
      assert forall k :: 0 <= k < 12 ==> Months[k] != "Ιανουάριος" by {
        assert forall k :: 0 <= k < 12 ==> |Months[k]| != 10 || Months[k][9] != 'ς';
      }
    }
    ParseHeading("Κυριακή ", "4", " ", "Ιανουάριος", " ", "2026", ", 5 Ιανουαρίου 2026");
  }
}
