/**
 * The race record the scrapers build and `create_ics`, which turns each
 * record into an all-day calendar event with a three-line description.
 */
module Calendar {
  import opened Text
  import opened Dates

  /** One scraped race: the dictionary `{"title", "date", "location", "url"}`. */
  datatype Race = Race(title: string, date: Date, location: string, url: string)

  /** The fields `create_ics` sets on an `ics.Event`. */
  datatype Event = Event(name: string, begin: Date, allDay: bool, location: string, url: string, description: string)

  /** The event description: title, location and link on three lines. */
  function Description(r: Race): (d: string)
    ensures |d| == |r.title| + |r.location| + |r.url| + 23
    ensures d[..|r.title|] == r.title && d[|d| - |r.url|..] == r.url
  {
    r.title + "\nLocation: " + r.location + "\nMore info: " + r.url
  }

  /** Read back line by line, the description gives the title, the location and the link. */
  lemma {:induction false} DescriptionLines(r: Race)
    requires '\n' !in r.title && '\n' !in r.location && '\n' !in r.url
    ensures Split(Description(r), '\n') == [r.title, "Location: " + r.location, "More info: " + r.url]
  {
    var line2 := "Location: " + r.location;
    var line3 := "More info: " + r.url;
    assert '\n' !in line2 && '\n' !in line3;
    assert Description(r) == r.title + ['\n'] + (line2 + ['\n'] + line3);
    SplitCons(r.title, '\n', line2 + ['\n'] + line3);
    SplitCons(line2, '\n', line3);
  }

  /** The event `create_ics` makes for one race: begins on its date, all day, no end set. */
  function ToEvent(r: Race): Event
  {
    Event(r.title, r.date, true, r.location, r.url, Description(r))
  }

  /** The loop of `create_ics`: one event per race, none skipped, in race order. */
  method CreateEvents(races: seq<Race>) returns (events: seq<Event>)
    ensures |events| == |races|
    ensures forall i :: 0 <= i < |races| ==>
      events[i].name == races[i].title && events[i].begin == races[i].date && events[i].allDay &&
      events[i].location == races[i].location && events[i].url == races[i].url &&
      events[i].description == Description(races[i])
  {
    events := [];
    for i := 0 to |races|
      invariant |events| == i
      invariant forall j :: 0 <= j < i ==> events[j] == ToEvent(races[j])
    {
      events := events + [ToEvent(races[i])];
    }
  }
}
