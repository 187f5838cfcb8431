/**
 * The 2026 Greek race calendar scraper: `h4` day headings set the current
 * date, and every `li` of a `ul` met under a date becomes a race on that date.
 */
module GreeceCalendar {
  import opened Optional
  import opened Text
  import opened Dates
  import opened Html
  import opened GreekDate
  import opened Calendar
  import opened Scanning

  /** The day names a heading is recognised by. */
  const Weekdays: seq<string> := ["Κυριακή", "Σάββατο", "Δευτέρα", "Τρίτη", "Τετάρτη", "Πέμπτη", "Παρασκευή"]

  predicate HasWeekday(text: string)
  {
    exists k :: 0 <= k < |Weekdays| && Contains(text, Weekdays[k])
  }

  /** An `h4` whose text names a day of the week. */
  predicate IsDateHeading(e: Element)
  {
    e.tag == H4 && HasWeekday(AllText(e.strings))
  }

  /** What `parse_date` makes of a heading's text. */
  function HeadingParse(e: Element): DateOutcome
  {
    ParseGreekDate(AllText(e.strings))
  }

  /** A date heading that parses: it replaces the current date. */
  predicate IsAnchor(e: Element)
  {
    IsDateHeading(e) && HeadingParse(e).Parsed?
  }

  /** A date heading naming a date that does not exist: `strptime` raises. */
  predicate IsFaultyHeading(e: Element)
  {
    IsDateHeading(e) && HeadingParse(e).Invalid?
  }

  /** The title: the first `em`'s text, else the first linked `a`'s text, else the whole entry's text. */
  function Title(li: Element): (r: string)
    ensures r != [] ==> !IsSpace(r[0]) && !IsSpace(r[|r| - 1])
    ensures li.em.None? && li.link.None? ==> (r == [] <==> StrippedStrings(li.strings) == [])
    ensures li.em.Some? ==> r == GetText(li.em.value, "")
    ensures li.em.None? && li.link.Some? ==> r == GetText(li.link.value.strings, "")
    ensures li.em.None? && li.link.None? ==> r == GetText(li.strings, "")
  {
    if li.em.Some? then GetText(li.em.value, "")
    else if li.link.Some? then GetText(li.link.value.strings, "")
    else GetText(li.strings, "")
  }

  /** The link: the first `a` with an href, else the empty string. */
  function Url(li: Element): (r: string)
    ensures li.link.None? ==> r == ""
    ensures r != "" ==> li.link.Some? && r == li.link.value.href
    ensures li.link.Some? ==> r == li.link.value.href
  {
    if li.link.Some? then li.link.value.href else ""
  }

  /** The location: the text between the first `(` and the next `)`, stripped, with no comma cut. */
  function Location(text: string): (r: string)
    ensures !('(' in text && ')' in text) ==> r == "Unknown"
    ensures '(' in text && ')' in text ==> ')' !in r
  {
    if '(' in text && ')' in text then
      StripKeeps(FirstGroup(text), ')');
      Strip(FirstGroup(text))
    else "Unknown"
  }

  /** `text.split("(", 1)[1].split(")")[0]`: what follows the first `(`, up to the next `)`. */
  function FirstGroup(text: string): (g: string)
    requires '(' in text
    ensures ')' !in g
  {
    Split(After(text, '('), ')')[0]
  }

  /** The record an entry yields on date `d`. */
  function EntryRace(li: Element, d: Date): (r: Race)
    ensures r.date == d
    ensures r.url != "" ==> li.link.Some? && r.url == li.link.value.href
    ensures r.title == Title(li) && r.location == Location(GetText(li.strings, " "))
    ensures r.url == (if li.link.Some? then li.link.value.href else "")
  {
    Race(Title(li), d, Location(GetText(li.strings, " ")), Url(li))
  }

  /** The records of the entries of one list, in order, all on date `d`. */
  function EntryRaces(items: seq<Element>, d: Date): seq<Race>
  {
    seq(|items|, j requires 0 <= j < |items| => EntryRace(items[j], d))
  }

  /** What the loop body of `scrape` does with one selected element. */
  function Classify(e: Element): Action
  {
    if IsDateHeading(e) then SetDate(HeadingParse(e))
    else if e.tag == Ul then Emit(d => EntryRaces(e.items, d))
    else Skip
  }

  /** The inner loop of `scrape`: one record per entry of a list, on date `date`. */
  method ListRaces(items: seq<Element>, date: Date) returns (races: seq<Race>)
    ensures races == EntryRaces(items, date)
  {
    races := [];
    for j := 0 to |items|
      invariant |races| == j
      invariant forall k :: 0 <= k < j ==> races[k] == EntryRace(items[k], date)
    {
      var race := EntryRace(items[j], date);
      races := races + [race];
    }
  }

  /**
   * `scrape` after the page is fetched and the content container found:
   * `nodes` are the `h4` and `ul` elements in document order.
   */
  method Scrape(nodes: seq<Element>) returns (result: Outcome<seq<Race>>)
    ensures result.Raised? <==> Run(Classify, Start, nodes).Raised?
    ensures result.Ok? ==> result.value == Run(Classify, Start, nodes).value.races
  {
    var races: seq<Race> := [];
    var current: Option<Date> := None;
    for i := 0 to |nodes|
      invariant Run(Classify, Start, nodes[..i]) == Ok(ScanState(current, races))
    {
      var el := nodes[i];
      RunExtend(Classify, Start, nodes, i);
      if el.tag == H4 && HasWeekday(AllText(el.strings)) {
        var parsed := ParseGreekDate(AllText(el.strings));
        assert Classify(el) == SetDate(parsed);
        if parsed.Invalid? {
          RaisedPrefix(Classify, Start, nodes, i + 1);
          return Raised;
        }
        if parsed.Parsed? {
          current := Some(parsed.date);
        }
        continue;
      }
      if el.tag == Ul && current.Some? {
        var entries := ListRaces(el.items, current.value);
        assert Classify(el).records(current.value) == entries;
        races := races + entries;
      }
    }
    assert nodes[..|nodes|] == nodes;
    return Ok(races);
  }

  /** The first `(` and the next `)` cut the location out; with no `)` anywhere it is "Unknown". */
  lemma LocationIsFirstGroup(text: string, i: nat, j: nat)
    requires FirstParenGroup(text, i, j)
    ensures ')' !in text ==> Location(text) == "Unknown"
    ensures ')' in text ==> Location(text) == Strip(text[i + 1..j])
  {
    ParenGroupIsSplit(text, i, j);
  }

  /** The scan raises exactly when some date heading names a date that does not exist. */
  lemma ScrapeRaisesIff(nodes: seq<Element>)
    ensures Run(Classify, Start, nodes).Raised? <==> exists i :: 0 <= i < |nodes| && IsFaultyHeading(nodes[i])
  {
    RaisesIff(Classify, Start, nodes);
    forall i | 0 <= i < |nodes|
      ensures Faulty(Classify(nodes[i])) <==> IsFaultyHeading(nodes[i])
    {
      FaultyIff(nodes[i]);
    }
  }

  /** The element that aborts a scan is a date heading whose date does not exist. */
  lemma FaultyIff(e: Element)
    ensures Faulty(Classify(e)) <==> IsFaultyHeading(e)
  {
  }

  /** Element `l` is the last date heading of `nodes` that parsed. */
  predicate LastAnchor(nodes: seq<Element>, l: int)
  {
    0 <= l < |nodes| && IsAnchor(nodes[l]) && forall m :: l < m < |nodes| ==> !IsAnchor(nodes[m])
  }

  /** Only headings that parse change the date, and they never clear it. */
  lemma ChangesAreAnchors(nodes: seq<Element>)
    ensures forall i :: 0 <= i < |nodes| ==> (ChangesDate(Classify(nodes[i])) <==> IsAnchor(nodes[i]))
    ensures forall l :: LatestChange(Classify, nodes, l) <==> LastAnchor(nodes, l)
    ensures forall i :: 0 <= i < |nodes| && IsAnchor(nodes[i]) ==>
      DateSet(Classify(nodes[i])) == Some(HeadingParse(nodes[i]).date)
  {
  }

  /**
   * After a scan the current date is the date of the last heading that
   * parsed; before any heading has parsed there is none.
   */
  lemma DateInForceAfter(nodes: seq<Element>)
    requires Run(Classify, Start, nodes).Ok?
    ensures forall l :: LastAnchor(nodes, l) ==>
      Run(Classify, Start, nodes).value.current == Some(HeadingParse(nodes[l]).date)
    ensures (forall i :: 0 <= i < |nodes| ==> !IsAnchor(nodes[i])) ==>
      Run(Classify, Start, nodes).value.current == None
  {
    DateInForce(Classify, Start, nodes);
    ChangesAreAnchors(nodes);
  }

  /** `r` is the record of an entry of the list `nodes[i]`, dated with the last heading `nodes[l]` that parsed before it. */
  predicate FromListUnder(nodes: seq<Element>, l: int, i: int, r: Race)
  {
    0 <= l < i < |nodes| && LastAnchor(nodes[..i], l) && nodes[i].tag == Ul &&
    r in EntryRaces(nodes[i].items, HeadingParse(nodes[l]).date)
  }

  /** Some list of `nodes` yielded `r` under the last heading that parsed before it. */
  predicate Sourced(nodes: seq<Element>, r: Race)
  {
    exists l, i :: 0 <= l < i < |nodes| && FromListUnder(nodes, l, i, r)
  }

  /**
   * Every race scraped is the record of an entry of some list, dated with the
   * last date heading that parsed before that list.
   */
  lemma RaceProvenance(nodes: seq<Element>)
    requires Run(Classify, Start, nodes).Ok?
    ensures forall k :: 0 <= k < |Run(Classify, Start, nodes).value.races| ==>
      Sourced(nodes, Run(Classify, Start, nodes).value.races[k])
  {
    var races := Run(Classify, Start, nodes).value.races;
    RacesEmitted(Classify, Start, nodes);
    forall k | 0 <= k < |races|
      ensures Sourced(nodes, races[k])
    {
      assert Emitted(Classify, Start, nodes, races[k]);
      var i :| 0 <= i < |nodes| && EmitsAt(Classify, Start, nodes, i, races[k]);
      EmittedIsSourced(nodes, i, races[k]);
    }
  }

  /** A record emitted at element `i` came from it under the date in force there. */
  lemma EmittedIsSourced(nodes: seq<Element>, i: nat, r: Race)
    requires EmitsAt(Classify, Start, nodes, i, r)
    ensures Sourced(nodes, r)
  {
    var p := nodes[..i];
    DateInForce(Classify, Start, p);
    ChangesAreAnchors(p);
    var a :| 0 <= a < |p| && ChangesDate(Classify(p[a]));
    LatestChangeExists(Classify, p, a);
    var l :| LatestChange(Classify, p, l);
    ListUnderLatest(nodes, l, i, r);
  }

  /** The list at `i`, emitting under the date set by the latest change `l` before it, sourced `r` from `l`. */
  lemma ListUnderLatest(nodes: seq<Element>, l: int, i: nat, r: Race)
    requires EmitsAt(Classify, Start, nodes, i, r) && LatestChange(Classify, nodes[..i], l)
    requires Run(Classify, Start, nodes[..i]).value.current == DateSet(Classify(nodes[..i][l]))
    ensures FromListUnder(nodes, l, i, r)
  {
    ChangesAreAnchors(nodes[..i]);
  }

  /** A page yields races only when some date heading on it parses. */
  lemma RacesNeedADate(nodes: seq<Element>)
    requires Run(Classify, Start, nodes).Ok?
    ensures Run(Classify, Start, nodes).value.races != [] ==> exists i :: 0 <= i < |nodes| && IsAnchor(nodes[i])
  {
    RaceProvenance(nodes);
    var races := Run(Classify, Start, nodes).value.races;
    if races != [] {
      SourcedHasAnchor(nodes, races[0]);
    }
  }

  /** A sourced race has a heading that parsed before it. */
  lemma SourcedHasAnchor(nodes: seq<Element>, r: Race)
    requires Sourced(nodes, r)
    ensures exists i :: 0 <= i < |nodes| && IsAnchor(nodes[i])
  {
    var l, i :| 0 <= l < i < |nodes| && FromListUnder(nodes, l, i, r);
    assert nodes[..i][l] == nodes[l];
  }

  /**
   * A list met before any date yields nothing; under a date, each of its
   * entries yields exactly one race on that date, appended in order.
   */
  lemma ListStep(nodes: seq<Element>, e: Element)
    requires Run(Classify, Start, nodes).Ok? && e.tag == Ul
    ensures var s := Run(Classify, Start, nodes).value;
      Run(Classify, Start, nodes + [e]).Ok? &&
      var s' := Run(Classify, Start, nodes + [e]).value;
      s'.current == s.current &&
      (s.current.None? ==> s'.races == s.races) &&
      (s.current.Some? ==>
        |s'.races| == |s.races| + |e.items| && s'.races[..|s.races|] == s.races &&
        forall j :: 0 <= j < |e.items| ==>
          s'.races[|s.races| + j] == EntryRace(e.items[j], s.current.value) &&
          s'.races[|s.races| + j].date == s.current.value)
  {
    assert (nodes + [e])[..|nodes|] == nodes;
  }

  /**
   * A date heading replaces the current date when it parses, keeps it when
   * no date is found, and raises when the date does not exist; an `h4`
   * naming no day of the week changes nothing.
   */
  lemma HeadingStep(nodes: seq<Element>, e: Element)
    requires Run(Classify, Start, nodes).Ok? && e.tag == H4
    ensures var s := Run(Classify, Start, nodes).value;
      Run(Classify, Start, nodes + [e]) ==
        if !HasWeekday(AllText(e.strings)) then Ok(s)
        else match ParseGreekDate(AllText(e.strings))
          case Invalid => Raised
          case NoDate => Ok(s)
          case Parsed(d) => Ok(ScanState(Some(d), s.races))
  {
    assert (nodes + [e])[..|nodes|] == nodes;
  }

  /**
   * End to end: a date heading that parses to `d`, then a list with one
   * entry that has an `em` and a linked `a`, scrape to exactly one race,
   * titled with the `em` text, located by the entry's first parenthesised
   * group and linked to the `a`'s href.
   */
  lemma HeadingThenListYieldsOne(h: Element, ul: Element, li: Element, d: Date)
    requires IsDateHeading(h) && HeadingParse(h) == Parsed(d)
    requires ul.tag == Ul && ul.items == [li] && li.em.Some? && li.link.Some?
    ensures Run(Classify, Start, [h, ul]) ==
      Ok(ScanState(Some(d), [Race(GetText(li.em.value, ""), d, Location(GetText(li.strings, " ")), li.link.value.href)]))
  {
    HeadingThenList(h, ul, d);
    assert EntryRaces([li], d) == [EntryRace(li, d)];
  }

  /** A date heading that parses, then a list: the list's records on that date, in order. */
  lemma HeadingThenList(h: Element, ul: Element, d: Date)
    requires IsDateHeading(h) && HeadingParse(h) == Parsed(d) && ul.tag == Ul
    ensures Run(Classify, Start, [h, ul]) == Ok(ScanState(Some(d), EntryRaces(ul.items, d)))
  {
    RunPair(Classify, Start, h, ul);
    assert Apply(Start, Classify(h)) == Ok(ScanState(Some(d), []));
    assert Classify(ul).records(d) == EntryRaces(ul.items, d);
    assert [] + EntryRaces(ul.items, d) == EntryRaces(ul.items, d);
  }

  /**
   * The location is the whole first parenthesised group, commas included:
   * text before the first `(`, then a group with no `)` and no white space
   * at its ends, locates to that group.
   */
  lemma LocationIsWholeGroup(x: string, g: string, y: string)
    requires '(' !in x && ')' !in g && g != [] && !IsSpace(g[0]) && !IsSpace(g[|g| - 1])
    ensures Location(x + "(" + g + ")" + y) == g
  {
    var text := x + "(" + g + ")" + y;
    assert text == x + ['('] + (g + [')'] + y);
    BeforeAfterUnique(x, '(', g + [')'] + y);
    BeforeAfterUnique(g, ')', y);
    StripUnchanged(g);
  }

  /** For instance, "X (A, B)" is located at "A, B". */
  lemma LocationKeepsCommas()
    ensures Location("X (A, B)") == "A, B"
  {
    assert "X (A, B)" == "X " + "(" + "A, B" + ")" + "";
    LocationIsWholeGroup("X ", "A, B", "");
  }
}
