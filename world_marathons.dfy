/**
 * The 2026 world marathon scraper (`scripts/irun_world_marathons_to_ics.py`):
 * `h2` month headers clear the current date. Paragraphs whose first bold
 * text mentions 2026 are date lines: they set the date when it parses, keep
 * it when no Greek date is found, abort the scrape when the date does not
 * exist, and never yield a race. Any other paragraph with a link and an
 * emphasis, met under a date, is one race.
 */
module WorldMarathons {
  import opened Optional
  import opened Text
  import opened Dates
  import opened Html
  import opened GreekDate
  import opened Calendar
  import opened Scanning

  /** A month header: it clears the current date. */
  predicate IsMonthHeader(e: Element)
  {
    e.tag == H2
  }

  /** A date line: not a header, and its first `strong` mentions the year. */
  predicate IsDateLine(e: Element)
  {
    e.tag != H2 && e.strong.Some? && Contains(AllText(e.strong.value), "2026")
  }

  /** What `parse_date` makes of a date line's bold text. */
  function LineParse(e: Element): DateOutcome
    requires e.strong.Some?
  {
    ParseGreekDate(AllText(e.strong.value))
  }

  /** A date line that parses: it replaces the current date. */
  predicate IsAnchor(e: Element)
  {
    IsDateLine(e) && LineParse(e).Parsed?
  }

  /** A date line naming a date that does not exist: `strptime` raises. */
  predicate IsFaultyLine(e: Element)
  {
    IsDateLine(e) && LineParse(e).Invalid?
  }

  /** A race line: neither header nor date line, with a linked `a` and an `em`. */
  predicate IsRaceLine(e: Element)
  {
    e.tag != H2 && !IsDateLine(e) && e.link.Some? && e.em.Some?
  }

  /** The location: the first parenthesised group, cut at its first comma, stripped. */
  function Location(text: string): (r: string)
    ensures !('(' in text && ')' in text) ==> r == "Unknown"
    ensures '(' in text && ')' in text ==> ',' !in r
  {
    if '(' in text && ')' in text then
      StripKeeps(Split(Split(After(text, '('), ')')[0], ',')[0], ',');
      Strip(Split(Split(After(text, '('), ')')[0], ',')[0])
    else "Unknown"
  }

  /** The record a race line yields on date `d`. */
  function RaceOf(e: Element, d: Date): (r: Race)
    requires e.link.Some? && e.em.Some?
    ensures r.date == d && r.url == e.link.value.href
    ensures r.title == GetText(e.em.value, "")
    ensures r.location == Location(GetText(e.strings, ""))
  {
    Race(GetText(e.em.value, ""), d, Location(GetText(e.strings, "")), e.link.value.href)
  }

  /** What the loop body of `scrape` does with one selected element. */
  function Classify(e: Element): Action
  {
    if IsMonthHeader(e) then Reset
    else if IsDateLine(e) then SetDate(LineParse(e))
    else if e.link.Some? && e.em.Some? then Emit(d => [RaceOf(e, d)])
    else Skip
  }

  /**
   * `scrape` after the page is fetched and the content container found:
   * `nodes` are the `h2` and `p` elements in document order.
   */
  method Scrape(nodes: seq<Element>) returns (result: Outcome<seq<Race>>)
    ensures result.Raised? <==> Run(Classify, Start, nodes).Raised?
    ensures result.Ok? ==> result.value == Run(Classify, Start, nodes).value.races
  {
    var races: seq<Race> := [];
    var current: Option<Date> := None;
    for i := 0 to |nodes|
      invariant Run(Classify, Start, nodes[..i]) == Ok(ScanState(current, races))
    {
      var el := nodes[i];
      RunExtend(Classify, Start, nodes, i);
      if el.tag == H2 {
        current := None;
        continue;
      }
      if el.strong.Some? && Contains(AllText(el.strong.value), "2026") {
        var parsed := ParseGreekDate(AllText(el.strong.value));
        assert Classify(el) == SetDate(parsed);
        if parsed.Invalid? {
          RaisedPrefix(Classify, Start, nodes, i + 1);
          return Raised;
        }
        if parsed.Parsed? {
          current := Some(parsed.date);
        }
        continue;
      }
      if current.Some? {
        if !(el.link.Some? && el.em.Some?) {
          continue;
        }
        var race := RaceOf(el, current.value);
        assert Classify(el).records(current.value) == [race];
        races := races + [race];
      }
    }
    assert nodes[..|nodes|] == nodes;
    return Ok(races);
  }

  /**
   * The location is the first parenthesised group up to its first comma,
   * stripped; with no `)` anywhere it is "Unknown".
   */
  lemma LocationIsFirstField(text: string, i: nat, j: nat, k: nat)
    requires FirstParenGroup(text, i, j) && FieldEnd(text, i + 1, j, ',', k)
    ensures ')' !in text ==> Location(text) == "Unknown"
    ensures ')' in text ==> Location(text) == Strip(text[i + 1..k])
  {
    ParenGroupIsSplit(text, i, j);
    FieldIsBefore(text, i + 1, j, ',', k);
  }

  /** The element that aborts a scan is a date line whose date does not exist. */
  lemma FaultyIff(e: Element)
    ensures Faulty(Classify(e)) <==> IsFaultyLine(e)
  {
  }

  /** The scan raises exactly when some date line names a date that does not exist. */
  lemma ScrapeRaisesIff(nodes: seq<Element>)
    ensures Run(Classify, Start, nodes).Raised? <==> exists i :: 0 <= i < |nodes| && IsFaultyLine(nodes[i])
  {
    RaisesIff(Classify, Start, nodes);
    forall i | 0 <= i < |nodes|
      ensures Faulty(Classify(nodes[i])) <==> IsFaultyLine(nodes[i])
    {
      FaultyIff(nodes[i]);
    }
  }

  /** Element `l` is the last month header or parsed date line of `nodes`. */
  predicate LastChange(nodes: seq<Element>, l: int)
  {
    0 <= l < |nodes| && (IsMonthHeader(nodes[l]) || IsAnchor(nodes[l])) &&
    forall m :: l < m < |nodes| ==> !IsMonthHeader(nodes[m]) && !IsAnchor(nodes[m])
  }

  /** Month headers clear the date and parsed date lines set it; nothing else changes it. */
  lemma ChangesAreHeadersAndAnchors(nodes: seq<Element>)
    ensures forall i :: 0 <= i < |nodes| ==>
      (ChangesDate(Classify(nodes[i])) <==> IsMonthHeader(nodes[i]) || IsAnchor(nodes[i]))
    ensures forall l :: LatestChange(Classify, nodes, l) <==> LastChange(nodes, l)
    ensures forall i :: 0 <= i < |nodes| && IsMonthHeader(nodes[i]) ==> DateSet(Classify(nodes[i])) == None
    ensures forall i :: 0 <= i < |nodes| && IsAnchor(nodes[i]) ==>
      DateSet(Classify(nodes[i])) == Some(LineParse(nodes[i]).date)
  {
  }

  /**
   * After a scan the current date is cleared when the last change was a month
   * header, is the date of the last date line when that came last, and is
   * absent when neither has been met.
   */
  lemma DateInForceAfter(nodes: seq<Element>)
    requires Run(Classify, Start, nodes).Ok?
    ensures forall l :: LastChange(nodes, l) && IsMonthHeader(nodes[l]) ==>
      Run(Classify, Start, nodes).value.current == None
    ensures forall l :: LastChange(nodes, l) && IsAnchor(nodes[l]) ==>
      Run(Classify, Start, nodes).value.current == Some(LineParse(nodes[l]).date)
    ensures (forall i :: 0 <= i < |nodes| ==> !IsMonthHeader(nodes[i]) && !IsAnchor(nodes[i])) ==>
      Run(Classify, Start, nodes).value.current == None
  {
    DateInForce(Classify, Start, nodes);
    ChangesAreHeadersAndAnchors(nodes);
  }

  /**
   * `r` is the record of the race line `nodes[i]`, dated with the date line
   * `nodes[l]`, with no month header or other parsed date line in between.
   */
  predicate FromLineUnder(nodes: seq<Element>, l: int, i: int, r: Race)
  {
    0 <= l < i < |nodes| && LastChange(nodes[..i], l) && IsAnchor(nodes[l]) &&
    IsRaceLine(nodes[i]) && r == RaceOf(nodes[i], LineParse(nodes[l]).date)
  }

  /** Some race line of `nodes` yielded `r` under the date line in force for it. */
  predicate Sourced(nodes: seq<Element>, r: Race)
  {
    exists l, i :: 0 <= l < i < |nodes| && FromLineUnder(nodes, l, i, r)
  }

  /**
   * Every race scraped is the record of a race line, dated with the last
   * date line before it, with no month header between the two.
   */
  lemma RaceProvenance(nodes: seq<Element>)
    requires Run(Classify, Start, nodes).Ok?
    ensures forall k :: 0 <= k < |Run(Classify, Start, nodes).value.races| ==>
      Sourced(nodes, Run(Classify, Start, nodes).value.races[k])
  {
    var races := Run(Classify, Start, nodes).value.races;
    RacesEmitted(Classify, Start, nodes);
    forall k | 0 <= k < |races|
      ensures Sourced(nodes, races[k])
    {
      assert Emitted(Classify, Start, nodes, races[k]);
      var i :| 0 <= i < |nodes| && EmitsAt(Classify, Start, nodes, i, races[k]);
      EmittedIsSourced(nodes, i, races[k]);
    }
  }

  /** A record emitted at element `i` came from it under the date in force there. */
  lemma EmittedIsSourced(nodes: seq<Element>, i: nat, r: Race)
    requires EmitsAt(Classify, Start, nodes, i, r)
    ensures Sourced(nodes, r)
  {
    var p := nodes[..i];
    assert forall m :: 0 <= m < |p| ==> p[m] == nodes[m];
    DateInForce(Classify, Start, p);
    ChangesAreHeadersAndAnchors(p);
    var a :| 0 <= a < |p| && ChangesDate(Classify(p[a]));
    LatestChangeExists(Classify, p, a);
    var l :| LatestChange(Classify, p, l);
    assert FromLineUnder(nodes, l, i, r);
  }

  /** Month headers and date lines never yield a race. */
  lemma HeaderAndDateLinesYieldNothing(nodes: seq<Element>, e: Element)
    requires Run(Classify, Start, nodes).Ok? && (IsMonthHeader(e) || IsDateLine(e))
    ensures var s := Run(Classify, Start, nodes).value;
      Run(Classify, Start, nodes + [e]).Ok? ==> Run(Classify, Start, nodes + [e]).value.races == s.races
    ensures IsMonthHeader(e) ==>
      (Run(Classify, Start, nodes + [e]).Ok? && Run(Classify, Start, nodes + [e]).value.current == None)
  {
    assert (nodes + [e])[..|nodes|] == nodes;
  }

  /**
   * A race line met under a date adds exactly its one record, on that date;
   * met with no date in force it adds nothing. Either way the date is kept.
   */
  lemma RaceLineStep(nodes: seq<Element>, e: Element)
    requires Run(Classify, Start, nodes).Ok? && IsRaceLine(e)
    ensures var s := Run(Classify, Start, nodes).value;
      Run(Classify, Start, nodes + [e]) ==
        if s.current.Some? then Ok(ScanState(s.current, s.races + [RaceOf(e, s.current.value)])) else Ok(s)
  {
    assert (nodes + [e])[..|nodes|] == nodes;
  }

  /** A line that is neither header, date line nor race line changes nothing. */
  lemma OtherLineStep(nodes: seq<Element>, e: Element)
    requires Run(Classify, Start, nodes).Ok? && !IsMonthHeader(e) && !IsDateLine(e) && !IsRaceLine(e)
    ensures Run(Classify, Start, nodes + [e]) == Run(Classify, Start, nodes)
  {
    assert (nodes + [e])[..|nodes|] == nodes;
  }

  /**
   * The location is the first parenthesised group cut at its first comma:
   * text before the first `(`, then a first field with no comma, no `)` and
   * no white space at its ends, locates to that field.
   */
  lemma LocationIsFirstOfGroup(x: string, f: string, z: string, y: string)
    requires '(' !in x && ')' !in f && ',' !in f && ')' !in z
    requires f != [] && !IsSpace(f[0]) && !IsSpace(f[|f| - 1])
    ensures Location(x + "(" + f + "," + z + ")" + y) == f
  {
    var text := x + "(" + f + "," + z + ")" + y;
    assert text == x + ['('] + ((f + [','] + z) + [')'] + y);
    BeforeAfterUnique(x, '(', (f + [','] + z) + [')'] + y);
    assert ')' !in f + [','] + z;
    BeforeAfterUnique(f + [','] + z, ')', y);
    BeforeAfterUnique(f, ',', z);
    StripUnchanged(f);
  }

  /** For instance, "X(A, B)" is located at "A". */
  lemma LocationDropsLaterFields()
    ensures Location("X(A, B)") == "A"
  {
    assert "X(A, B)" == "X" + "(" + "A" + "," + " B" + ")" + "";
    LocationIsFirstOfGroup("X", "A", " B", "");
  }

  /**
   * End to end: a date line that parses to `d`, then a race line, scrape to
   * exactly one race, titled with the `em` text, located by the line's first
   * parenthesised group and linked to the `a`'s href.
   */
  lemma DateLineThenRaceLine(h: Element, e: Element, d: Date)
    requires IsDateLine(h) && LineParse(h) == Parsed(d) && IsRaceLine(e)
    ensures Run(Classify, Start, [h, e]) ==
      Ok(ScanState(Some(d), [Race(GetText(e.em.value, ""), d, Location(GetText(e.strings, "")), e.link.value.href)]))
  {
    RunPair(Classify, Start, h, e);
    assert Apply(Start, Classify(h)) == Ok(ScanState(Some(d), []));
    assert Classify(e).records(d) == [RaceOf(e, d)];
    assert [] + [RaceOf(e, d)] == [RaceOf(e, d)];
  }
}
