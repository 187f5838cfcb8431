/**
 * The date of a flat world-marathons list entry: the first match of
 * `(\d{1,2})/(\d{1,2})/(\d{4})`, turned into `datetime(year, month, day)`,
 * with a `ValueError` caught and the entry dropped.
 */
module NumericDate {
  import opened Optional
  import opened Text
  import opened Dates

  /**
   * One match, by position: the day is `s[start..dayEnd]`, a `/`, the month
   * `s[dayEnd + 1..monthEnd]`, a `/`, the year `s[monthEnd + 1..monthEnd + 5]`.
   */
  datatype SlashMatch = SlashMatch(start: nat, dayEnd: nat, monthEnd: nat)

  /** `m` is a way for the pattern to match `s` at `m.start`. */
  predicate IsSlashMatch(s: string, m: SlashMatch)
  {
    m.start < m.dayEnd <= m.start + 2 && m.dayEnd + 1 < m.monthEnd <= m.dayEnd + 3 &&
    m.monthEnd + 5 <= |s| &&
    AllIn(s, m.start, m.dayEnd, IsDigit) && s[m.dayEnd] == '/' &&
    AllIn(s, m.dayEnd + 1, m.monthEnd, IsDigit) && s[m.monthEnd] == '/' &&
    AllIn(s, m.monthEnd + 1, m.monthEnd + 5, IsDigit)
  }

  /** Where a greedy `\d{1,2}` starting at `i` stops (at `i` when there is no digit there). */
  function UpToTwoDigits(s: string, i: nat): (j: nat)
    requires i <= |s|
    ensures i <= j <= i + 2 && j <= |s| && AllIn(s, i, j, IsDigit)
    ensures j < i + 2 && j < |s| ==> !IsDigit(s[j])
  {
    if i < |s| && IsDigit(s[i]) then
      if i + 1 < |s| && IsDigit(s[i + 1]) then i + 2 else i + 1
    else i
  }

  /**
   * The regex engine at position `i`. Giving back a digit of `\d{1,2}` never
   * helps, because the character that must then be `/` is a digit.
   */
  function MatchAt(s: string, i: nat): (r: Option<SlashMatch>)
    requires i <= |s|
    ensures r.Some? ==> r.value.start == i && IsSlashMatch(s, r.value)
  {
    var dayEnd := UpToTwoDigits(s, i);
    if i < dayEnd < |s| && s[dayEnd] == '/' then
      var monthEnd := UpToTwoDigits(s, dayEnd + 1);
      if dayEnd + 1 < monthEnd && monthEnd + 5 <= |s| && s[monthEnd] == '/' && AllIn(s, monthEnd + 1, monthEnd + 5, IsDigit)
      then Some(SlashMatch(i, dayEnd, monthEnd))
      else None
    else None
  }

  /** Every way the pattern can match at a position is the one the engine finds. */
  lemma MatchAtComplete(s: string, m: SlashMatch)
    requires IsSlashMatch(s, m)
    ensures MatchAt(s, m.start) == Some(m)
  {
    assert m.dayEnd == UpToTwoDigits(s, m.start);
    assert m.monthEnd == UpToTwoDigits(s, m.dayEnd + 1);
  }

  /** `re.search` from `from` on: the leftmost match. */
  function Search(s: string, from: nat): (r: Option<SlashMatch>)
    requires from <= |s|
    ensures r.Some? ==> IsSlashMatch(s, r.value) && from <= r.value.start
    ensures forall m :: IsSlashMatch(s, m) && from <= m.start ==> r.Some? && r.value.start <= m.start
    decreases |s| - from
  {
    match MatchAt(s, from)
    case Some(m) => Some(m)
    case None =>
      assert forall m :: IsSlashMatch(s, m) ==> m.start != from by {
        forall m | IsSlashMatch(s, m) ensures m.start != from { MatchAtComplete(s, m); }
      }
      if from == |s| then None else Search(s, from + 1)
  }

  lemma SearchFindsLeftmost(s: string, m: SlashMatch)
    requires IsSlashMatch(s, m)
    requires forall m' :: IsSlashMatch(s, m') ==> m.start <= m'.start
    ensures Search(s, 0) == Some(m)
  {
    var r := Search(s, 0);
    assert r.Some? && r.value.start <= m.start;
    assert IsSlashMatch(s, r.value);
    assert r.value.start == m.start;
    MatchAtComplete(s, m);
    MatchAtComplete(s, r.value);
  }

  function DayOf(s: string, m: SlashMatch): nat
    requires IsSlashMatch(s, m)
  {
    assert AllDigits(s[m.start..m.dayEnd]);
    Value(s[m.start..m.dayEnd])
  }

  function MonthOf(s: string, m: SlashMatch): nat
    requires IsSlashMatch(s, m)
  {
    assert AllDigits(s[m.dayEnd + 1..m.monthEnd]);
    Value(s[m.dayEnd + 1..m.monthEnd])
  }

  function YearOf(s: string, m: SlashMatch): nat
    requires IsSlashMatch(s, m)
  {
    assert AllDigits(s[m.monthEnd + 1..m.monthEnd + 5]);
    Value(s[m.monthEnd + 1..m.monthEnd + 5])
  }

  /** The entry's date, or `None` when the entry is skipped (no match, or `datetime` raised). */
  function ParseSlashDate(text: string): (r: Option<Date>)
    ensures r.Some? ==> Valid(r.value)
  {
    match Search(text, 0)
    case None => None
    case Some(m) =>
      if ValidDate(YearOf(text, m), MonthOf(text, m), DayOf(text, m))
      then Some(Date(YearOf(text, m), MonthOf(text, m), DayOf(text, m)))
      else None
  }

  /**
   * Only the first match counts: the date is exactly its day, month and year
   * when they form a real date, and the entry is skipped otherwise, even if a
   * later match would have been valid.
   */
  lemma {:induction false} ParseFirstMatch(text: string, m: SlashMatch)
    requires IsSlashMatch(text, m)
    requires forall m' :: IsSlashMatch(text, m') ==> m.start <= m'.start
    ensures ParseSlashDate(text) ==
      if ValidDate(YearOf(text, m), MonthOf(text, m), DayOf(text, m))
      then Some(Date(YearOf(text, m), MonthOf(text, m), DayOf(text, m)))
      else None
  {
    SearchFindsLeftmost(text, m);
  }

  /** No match at all: the entry is skipped. */
  lemma ParseWithoutMatch(text: string)
    requires forall m :: !IsSlashMatch(text, m)
    ensures ParseSlashDate(text) == None
  {
  }

  /**
   * An entry such as "Paris Marathon 05/04/2026 (France, Paris)": a prefix
   * without digits, then `dd/mm/yyyy`, then anything.
   */
  lemma {:induction false} ParseEntryDate(prefix: string, day: string, month: string, year: string, suffix: string)
    requires forall k :: 0 <= k < |prefix| ==> !IsDigit(prefix[k])
    requires 1 <= |day| <= 2 && AllDigits(day) && 1 <= |month| <= 2 && AllDigits(month)
    requires |year| == 4 && AllDigits(year)
    ensures ParseSlashDate(prefix + day + "/" + month + "/" + year + suffix) ==
      if ValidDate(Value(year), Value(month), Value(day))
      then Some(Date(Value(year), Value(month), Value(day)))
      else None
  {
    var text := prefix + day + "/" + month + "/" + year + suffix;
    var m := SlashMatch(|prefix|, |prefix| + |day|, |prefix| + |day| + 1 + |month|);
    EntryMatch(prefix, day, month, year, suffix);
    ParseFirstMatch(text, m);
  }

  /** The match in such an entry sits right after the prefix, and none starts earlier. */
  lemma EntryMatch(prefix: string, day: string, month: string, year: string, suffix: string)
    requires forall k :: 0 <= k < |prefix| ==> !IsDigit(prefix[k])
    requires 1 <= |day| <= 2 && AllDigits(day) && 1 <= |month| <= 2 && AllDigits(month)
    requires |year| == 4 && AllDigits(year)
    ensures var text := prefix + day + "/" + month + "/" + year + suffix;
      var m := SlashMatch(|prefix|, |prefix| + |day|, |prefix| + |day| + 1 + |month|);
      IsSlashMatch(text, m) && (forall m' :: IsSlashMatch(text, m') ==> m.start <= m'.start) &&
      text[m.start..m.dayEnd] == day && text[m.dayEnd + 1..m.monthEnd] == month &&
      text[m.monthEnd + 1..m.monthEnd + 5] == year
  {
    var text := prefix + day + "/" + month + "/" + year + suffix;
    var a := |prefix|;
    var b := a + |day|;
    var c := b + 1 + |month|;
    assert text[a..b] == day;
    assert text[b + 1..c] == month;
    assert text[c + 1..c + 5] == year;
    NoMatchInPrefix(prefix, day + "/" + month + "/" + year + suffix);
    assert text == prefix + (day + "/" + month + "/" + year + suffix);
  }

  /** No match starts inside a digit-free prefix. */
  lemma NoMatchInPrefix(prefix: string, rest: string)
    requires forall k :: 0 <= k < |prefix| ==> !IsDigit(prefix[k])
    ensures forall m :: IsSlashMatch(prefix + rest, m) ==> |prefix| <= m.start
  {
    var text := prefix + rest;
    assert forall k :: 0 <= k < |prefix| ==> text[k] == prefix[k];
    assert forall m :: IsSlashMatch(text, m) ==> IsDigit(text[m.start]);
  }

  /** An entry whose first date does not exist is skipped, even though a later date is real. */
  lemma LaterRealDateIgnored()
    ensures ParseSlashDate("Race 31/04/2026 or 01/05/2026") == None
  {
    assert "Race 31/04/2026 or 01/05/2026" == "Race " + "31" + "/" + "04" + "/" + "2026" + " or 01/05/2026";
    assert Value("04") == 4 && Value("31") == 31;
    ParseEntryDate("Race ", "31", "04", "2026", " or 01/05/2026");
  }
}
