/**
 * The flat world-marathons scraper (`irun_world_marathons_to_ics.py`): every
 * `li` inside a `ul` whose first `dd/mm/yyyy` names a real day is one race;
 * all other entries are skipped, including those whose first such date does
 * not exist but a later one does.
 */
module FlatMarathons {
  import opened Optional
  import opened Text
  import opened Dates
  import opened Html
  import opened NumericDate
  import opened Calendar

  /** A match of `\(([^)]+)\)`: the `(` at `open`, the `)` at `close`, the group between. */
  datatype ParenMatch = ParenMatch(open: nat, close: nat)

  /** `s[i]` is `(`, `s[j]` is the first `)` after it, and the group between is not empty. */
  predicate IsParenMatch(s: string, i: nat, j: nat)
  {
    i + 1 < j < |s| && s[i] == '(' && s[j] == ')' && ')' !in s[i + 1..j]
  }

  /** The regex engine at position `i`: `[^)]+` runs to the first `)`, which must exist and not be next. */
  function ParenAt(s: string, i: nat): (r: Option<nat>)
    requires i <= |s|
    ensures r.Some? ==> IsParenMatch(s, i, r.value)
    ensures r.None? ==> forall j :: !IsParenMatch(s, i, j)
  {
    if i + 1 < |s| && s[i] == '(' && s[i + 1] != ')' then
      match IndexOf(s[i + 1..], ')')
      case None =>
        assert forall j :: i + 1 < j < |s| ==> s[j] == s[i + 1..][j - i - 1];
        None
      case Some(k) =>
        assert s[i + 1..][..k] == s[i + 1..i + 1 + k];
        Some(i + 1 + k)
    else None
  }

  /** The `)` closing a group is determined by its `(`. */
  lemma ParenMatchUnique(s: string, i: nat, j: nat, j': nat)
    requires IsParenMatch(s, i, j) && IsParenMatch(s, i, j')
    ensures j == j'
  {
    assert forall k :: i + 1 <= k < j ==> s[k] == s[i + 1..j][k - i - 1];
    assert forall k :: i + 1 <= k < j' ==> s[k] == s[i + 1..j'][k - i - 1];
  }

  /** `re.search(r"\(([^)]+)\)", s[from..])`: the leftmost group at or after `from`. */
  function ParenSearch(s: string, from: nat): (r: Option<ParenMatch>)
    requires from <= |s|
    ensures r.Some? ==> IsParenMatch(s, r.value.open, r.value.close) && from <= r.value.open
    decreases |s| - from
  {
    match ParenAt(s, from)
    case Some(j) => Some(ParenMatch(from, j))
    case None => if from == |s| then None else ParenSearch(s, from + 1)
  }

  /** The search misses no group: it finds one at or before every group there is. */
  lemma {:induction false} ParenSearchLeftmost(s: string, from: nat, i: nat, j: nat)
    requires from <= i && IsParenMatch(s, i, j)
    ensures ParenSearch(s, from).Some? && ParenSearch(s, from).value.open <= i
    decreases i - from
  {
    if ParenAt(s, from).None? {
      assert from != i;
      ParenSearchLeftmost(s, from + 1, i, j);
    }
  }

  /** `text.split("(")[0].strip()`. */
  function Title(text: string): (r: string)
    ensures '(' !in r
  {
    StripKeeps(Split(text, '(')[0], '(');
    Strip(Split(text, '(')[0])
  }

  /** The location: the second comma-separated field of the first group, stripped; "Unknown" when there is none. */
  function Location(text: string): (r: string)
    ensures ParenSearch(text, 0).None? ==> r == "Unknown"
  {
    match ParenSearch(text, 0)
    case None => "Unknown"
    case Some(m) => GroupLocation(text[m.open + 1..m.close])
  }

  /** `[p.strip() for p in group.split(",")][1]` when there are at least two fields, else "Unknown". */
  function GroupLocation(group: string): (r: string)
    ensures ',' !in group ==> r == "Unknown"
    ensures ',' in group ==> ',' !in r
  {
    var parts := Split(group, ',');
    SplitPieces(group, ',');
    if |parts| > 1 then
      StripKeeps(parts[1], ',');
      Strip(parts[1])
    else "Unknown"
  }

  /** The entry's own link, else the page it was scraped from. */
  function Link(li: Element, pageUrl: string): (r: string)
    ensures li.link.None? ==> r == pageUrl
    ensures r == pageUrl || (li.link.Some? && r == li.link.value.href)
  {
    if li.link.Some? then li.link.value.href else pageUrl
  }

  /** The record one entry yields, or `None` when it is skipped. */
  function EntryRace(li: Element, pageUrl: string): (r: Option<Race>)
    ensures r.Some? ==> Valid(r.value.date)
  {
    var text := GetText(li.strings, " ");
    match ParseSlashDate(text)
    case None => None
    case Some(d) => Some(Race(Title(text), d, Location(text), Link(li, pageUrl)))
  }

  /** `EntryRace` for the page at `pageUrl`, as a function of the entry alone. */
  function EntryOf(pageUrl: string): Element -> Option<Race>
  {
    li => EntryRace(li, pageUrl)
  }

  /** The records `entry` gives the elements of `lis`, in order, skipping those it gives none for. */
  function Collect(entry: Element -> Option<Race>, lis: seq<Element>): (r: seq<Race>)
    ensures |r| <= |lis|
    decreases |lis|
  {
    if lis == [] then []
    else
      var last := entry(lis[|lis| - 1]);
      Collect(entry, lis[..|lis| - 1]) + if last.Some? then [last.value] else []
  }

  /**
   * `scrape_world_marathons` after the page is fetched: `lis` are the
   * elements `soup.select("ul li")` yields, in document order, and `pageUrl`
   * the page's address.
   */
  method Scrape(lis: seq<Element>, pageUrl: string) returns (races: seq<Race>)
    ensures races == Collect(EntryOf(pageUrl), lis)
  {
    races := [];
    for i := 0 to |lis|
      invariant races == Collect(EntryOf(pageUrl), lis[..i])
    {
      var li := lis[i];
      assert lis[..i + 1][..i] == lis[..i];
      assert EntryOf(pageUrl)(li) == EntryRace(li, pageUrl);
      var text := GetText(li.strings, " ");
      var dateMatch := NumericDate.Search(text, 0);
      if dateMatch.None? {
        assert EntryRace(li, pageUrl).None?;
        continue;
      }
      var m := dateMatch.value;
      var day, month, year := DayOf(text, m), MonthOf(text, m), YearOf(text, m);
      if !ValidDate(year, month, day) {
        assert EntryRace(li, pageUrl).None?;
        continue;
      }
      var race := Race(Title(text), Date(year, month, day), Location(text), Link(li, pageUrl));
      assert EntryRace(li, pageUrl) == Some(race);
      races := races + [race];
    }
    assert lis[..|lis|] == lis;
  }

  /** The title is the text before the first `(`, stripped; all of the text when there is none. */
  lemma TitleBeforeParen(text: string, i: nat)
    requires FieldEnd(text, 0, |text|, '(', i)
    ensures Title(text) == Strip(text[..i])
    ensures '(' !in text ==> Title(text) == Strip(text)
  {
    FieldIsBefore(text, 0, |text|, '(', i);
    assert text[0..|text|] == text && text[0..i] == text[..i];
  }

  /** The group found is the leftmost one there is. */
  lemma LeftmostGroupFound(text: string, i: nat, j: nat)
    requires IsParenMatch(text, i, j)
    requires forall i', j' :: IsParenMatch(text, i', j') ==> i <= i'
    ensures ParenSearch(text, 0) == Some(ParenMatch(i, j))
  {
    ParenSearchLeftmost(text, 0, i, j);
    var m := ParenSearch(text, 0).value;
    ParenMatchUnique(text, i, j, m.close);
  }

  /** The second field of `g.split(",")` runs from the first comma to the next one, or to the end. */
  lemma SecondField(g: string, c1: nat, c2: nat)
    requires FieldEnd(g, 0, |g|, ',', c1) && c1 < |g| && FieldEnd(g, c1 + 1, |g|, ',', c2)
    ensures |Split(g, ',')| > 1 && Split(g, ',')[1] == g[c1 + 1..c2]
  {
    assert g[..c1] == g[0..c1];
    SplitAtFirst(g, ',', c1);
    FieldIsBefore(g, c1 + 1, |g|, ',', c2);
    assert g[c1 + 1..|g|] == g[c1 + 1..];
  }

  /**
   * With a comma in the first group `g`, the location is the text between
   * its first comma and the next comma (or the end of the group), stripped.
   */
  lemma LocationSecondField(text: string, i: nat, j: nat, c1: nat, c2: nat)
    requires IsParenMatch(text, i, j)
    requires forall i', j' :: IsParenMatch(text, i', j') ==> i <= i'
    requires var g := text[i + 1..j];
      FieldEnd(g, 0, |g|, ',', c1) && c1 < |g| && FieldEnd(g, c1 + 1, |g|, ',', c2)
    ensures Location(text) == Strip(text[i + 1..j][c1 + 1..c2])
  {
    LeftmostGroupFound(text, i, j);
    assert Location(text) == GroupLocation(text[i + 1..j]);
    SecondField(text[i + 1..j], c1, c2);
  }

  /** Without a comma in the first group, the location is "Unknown". */
  lemma LocationWithoutComma(text: string, i: nat, j: nat)
    requires IsParenMatch(text, i, j)
    requires forall i', j' :: IsParenMatch(text, i', j') ==> i <= i'
    requires ',' !in text[i + 1..j]
    ensures Location(text) == "Unknown"
  {
    LeftmostGroupFound(text, i, j);
    assert Location(text) == GroupLocation(text[i + 1..j]);
  }

  /** Without a non-empty parenthesised group, the location is "Unknown". */
  lemma LocationWithoutGroup(text: string)
    requires forall i, j :: !IsParenMatch(text, i, j)
    ensures Location(text) == "Unknown"
  {
  }

  /**
   * An entry is kept exactly when the first `dd/mm/yyyy` in its text names a
   * real day, and then the race is on that day; an entry with no such
   * pattern is skipped.
   */
  lemma EntryKeptIff(li: Element, pageUrl: string, m: SlashMatch)
    requires IsSlashMatch(GetText(li.strings, " "), m)
    requires forall m' :: IsSlashMatch(GetText(li.strings, " "), m') ==> m.start <= m'.start
    ensures var text := GetText(li.strings, " ");
      var y, mo, d := YearOf(text, m), MonthOf(text, m), DayOf(text, m);
      (EntryRace(li, pageUrl).Some? <==> ValidDate(y, mo, d)) &&
      (EntryRace(li, pageUrl).Some? ==>
        EntryRace(li, pageUrl).value == Race(Title(text), Date(y, mo, d), Location(text), Link(li, pageUrl)))
  {
    ParseFirstMatch(GetText(li.strings, " "), m);
  }

  lemma EntrySkippedWithoutDate(li: Element, pageUrl: string)
    requires forall m :: !IsSlashMatch(GetText(li.strings, " "), m)
    ensures EntryRace(li, pageUrl) == None
  {
    ParseWithoutMatch(GetText(li.strings, " "));
  }

  /** Every race is on a real day, and its link is the entry's own or the page's. */
  lemma EntryRaceWellFormed(li: Element, pageUrl: string)
    requires EntryRace(li, pageUrl).Some?
    ensures Valid(EntryRace(li, pageUrl).value.date)
    ensures li.link.Some? ==> EntryRace(li, pageUrl).value.url == li.link.value.href
    ensures li.link.None? ==> EntryRace(li, pageUrl).value.url == pageUrl
  {
  }

  /** Entries are handled one at a time: collecting `a + b` is collecting `a`, then `b`. */
  lemma {:induction false} CollectAppend(entry: Element -> Option<Race>, a: seq<Element>, b: seq<Element>)
    ensures Collect(entry, a + b) == Collect(entry, a) + Collect(entry, b)
    decreases |b|
  {
    if b == [] {
      assert a + b == a;
    } else {
      var b' := b[..|b| - 1];
      assert (a + b)[..|a + b| - 1] == a + b';
      assert (a + b)[|a + b| - 1] == b[|b| - 1];
      CollectAppend(entry, a, b');
    }
  }

  /** `r` is the record of one of the entries. */
  predicate YieldedBy(entry: Element -> Option<Race>, lis: seq<Element>, r: Race)
  {
    exists i :: 0 <= i < |lis| && entry(lis[i]) == Some(r)
  }

  /**
   * At most one race per entry; every race is the record of some entry, and
   * every entry that yields a record contributes it.
   */
  lemma {:induction false} CollectExactly(entry: Element -> Option<Race>, lis: seq<Element>)
    ensures |Collect(entry, lis)| <= |lis|
    ensures forall k :: 0 <= k < |Collect(entry, lis)| ==> YieldedBy(entry, lis, Collect(entry, lis)[k])
    ensures forall i :: 0 <= i < |lis| && entry(lis[i]).Some? ==> entry(lis[i]).value in Collect(entry, lis)
    decreases |lis|
  {
    if lis != [] {
      var n := |lis| - 1;
      var p := lis[..n];
      CollectExactly(entry, p);
      var c := Collect(entry, lis);
      var last := entry(lis[n]);
      assert c == Collect(entry, p) + if last.Some? then [last.value] else [];
      forall k | 0 <= k < |c|
        ensures YieldedBy(entry, lis, c[k])
      {
        if k < |Collect(entry, p)| {
          assert YieldedBy(entry, p, Collect(entry, p)[k]);
          var i :| 0 <= i < |p| && entry(p[i]) == Some(Collect(entry, p)[k]);
          assert lis[i] == p[i];
        } else {
          assert entry(lis[n]) == Some(c[k]);
        }
      }
      forall i | 0 <= i < |lis| && entry(lis[i]).Some?
        ensures entry(lis[i]).value in c
      {
        if i < n {
          assert lis[i] == p[i];
        }
      }
    }
  }

  /** When every entry is kept, the races are the entries' records, in document order. */
  lemma {:induction false} CollectAllKept(entry: Element -> Option<Race>, lis: seq<Element>)
    requires forall i :: 0 <= i < |lis| ==> entry(lis[i]).Some?
    ensures |Collect(entry, lis)| == |lis|
    ensures forall i :: 0 <= i < |lis| ==> Collect(entry, lis)[i] == entry(lis[i]).value
    decreases |lis|
  {
    if lis != [] {
      var p := lis[..|lis| - 1];
      assert forall i :: 0 <= i < |p| ==> p[i] == lis[i];
      CollectAllKept(entry, p);
    }
  }
}
