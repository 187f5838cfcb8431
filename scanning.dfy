/**
 * The shape shared by the two heading-driven scrapers: one pass over the
 * selected elements in document order, carrying `current_date` and the
 * `races` list, which a `ValueError` from a date parse aborts. Each scraper
 * says what an element does (an `Action`); this module says what a pass of
 * such actions does.
 */
module Scanning {
  import opened Optional
  import opened Dates
  import opened Html
  import opened GreekDate
  import opened Calendar

  /** How `scrape` ends: with a value, or with the `ValueError` of `strptime` propagating out of it. */
  datatype Outcome<T> = Ok(value: T) | Raised

  /** The loop's variables: `current_date` and `races`. */
  datatype ScanState = ScanState(current: Option<Date>, races: seq<Race>)

  /** Before the first element: no date yet, no races. */
  const Start := ScanState(None, [])

  /**
   * What one element does: clear the date, parse a date (keeping the old one
   * when nothing parses), contribute records dated with the date in force
   * (only when there is one), or nothing.
   */
  datatype Action = Reset | SetDate(outcome: DateOutcome) | Emit(records: Date -> seq<Race>) | Skip

  /** The loop body for an element that does `a`. */
  function Apply(st: ScanState, a: Action): Outcome<ScanState>
  {
    match a
    case Reset => Ok(st.(current := None))
    case SetDate(o) =>
      (match o
       case Invalid => Raised
       case NoDate => Ok(st)
       case Parsed(d) => Ok(st.(current := Some(d))))
    case Emit(f) => if st.current.Some? then Ok(st.(races := st.races + f(st.current.value))) else Ok(st)
    case Skip => Ok(st)
  }

  /** The state after handing `nodes`, in order, to the loop body; the first `Raised` ends the pass. */
  function Run(classify: Element -> Action, st: ScanState, nodes: seq<Element>): (r: Outcome<ScanState>)
    ensures r.Ok? ==> |st.races| <= |r.value.races|
    decreases |nodes|
  {
    if nodes == [] then Ok(st)
    else
      match Run(classify, st, nodes[..|nodes| - 1])
      case Raised => Raised
      case Ok(s) => Apply(s, classify(nodes[|nodes| - 1]))
  }

  /** An element that aborts the pass. */
  predicate Faulty(a: Action)
  {
    a.SetDate? && a.outcome.Invalid?
  }

  /** An element that replaces the date in force. */
  predicate ChangesDate(a: Action)
  {
    a.Reset? || (a.SetDate? && a.outcome.Parsed?)
  }

  /** The date in force after an element that changes it. */
  function DateSet(a: Action): Option<Date>
    requires ChangesDate(a)
  {
    if a.Reset? then None else Some(a.outcome.date)
  }

  /** Element `i` is the last one of `nodes` that changes the date. */
  predicate LatestChange(classify: Element -> Action, nodes: seq<Element>, i: int)
  {
    0 <= i < |nodes| && ChangesDate(classify(nodes[i])) &&
    forall j :: i < j < |nodes| ==> !ChangesDate(classify(nodes[j]))
  }

  /** Element `i` emits `r`: the date in force just before it is `d`, and `r` is one of its records for `d`. */
  predicate EmitsAt(classify: Element -> Action, st: ScanState, nodes: seq<Element>, i: int, r: Race)
  {
    0 <= i < |nodes| && classify(nodes[i]).Emit? &&
    Run(classify, st, nodes[..i]).Ok? && Run(classify, st, nodes[..i]).value.current.Some? &&
    r in classify(nodes[i]).records(Run(classify, st, nodes[..i]).value.current.value)
  }

  /** `races` keeps `earlier` as its prefix. */
  predicate Extends(races: seq<Race>, earlier: seq<Race>)
  {
    |earlier| <= |races| && races[..|earlier|] == earlier
  }

  /** Some element of `nodes` emits `r`. */
  predicate Emitted(classify: Element -> Action, st: ScanState, nodes: seq<Element>, r: Race)
  {
    exists i :: 0 <= i < |nodes| && EmitsAt(classify, st, nodes, i, r)
  }

  /** One more element: what the loop body does to the state reached so far. */
  lemma RunExtend(classify: Element -> Action, st: ScanState, nodes: seq<Element>, i: nat)
    requires i < |nodes|
    ensures Run(classify, st, nodes[..i + 1]) ==
      match Run(classify, st, nodes[..i])
      case Raised => Raised
      case Ok(s) => Apply(s, classify(nodes[i]))
  {
    assert nodes[..i + 1][..i] == nodes[..i];
  }

  /** A pass over two elements: the loop body on the first, then on the second unless the first raised. */
  lemma RunPair(classify: Element -> Action, st: ScanState, x: Element, y: Element)
    ensures Run(classify, st, [x, y]) ==
      match Apply(st, classify(x))
      case Raised => Raised
      case Ok(s) => Apply(s, classify(y))
  {
    assert [x][..0] == [];
    assert Run(classify, st, [x]) == Apply(st, classify(x));
    assert [x, y][..1] == [x] && [x, y][1] == y;
  }

  /** Scanning `a + b` is scanning `a`, then scanning `b` from where `a` left off: no other state is carried. */
  lemma {:induction false} RunAppend(classify: Element -> Action, st: ScanState, a: seq<Element>, b: seq<Element>)
    ensures Run(classify, st, a + b) ==
      match Run(classify, st, a)
      case Raised => Raised
      case Ok(s) => Run(classify, s, b)
    decreases |b|
  {
    if b == [] {
      assert a + b == a;
    } else {
      var b' := b[..|b| - 1];
      assert (a + b)[..|a + b| - 1] == a + b';
      assert (a + b)[|a + b| - 1] == b[|b| - 1];
      RunAppend(classify, st, a, b');
    }
  }

  /** Once a prefix has raised, the whole pass has raised. */
  lemma RaisedPrefix(classify: Element -> Action, st: ScanState, nodes: seq<Element>, i: nat)
    requires i <= |nodes| && Run(classify, st, nodes[..i]) == Raised
    ensures Run(classify, st, nodes) == Raised
  {
    assert nodes == nodes[..i] + nodes[i..];
    RunAppend(classify, st, nodes[..i], nodes[i..]);
  }

  /** The pass raises exactly when some element's date does not exist. */
  lemma {:induction false} RaisesIff(classify: Element -> Action, st: ScanState, nodes: seq<Element>)
    ensures Run(classify, st, nodes).Raised? <==> exists i :: 0 <= i < |nodes| && Faulty(classify(nodes[i]))
    decreases |nodes|
  {
    if nodes != [] {
      var p := nodes[..|nodes| - 1];
      assert forall i :: 0 <= i < |p| ==> p[i] == nodes[i];
      RaisesIff(classify, st, p);
      if exists i :: 0 <= i < |p| && Faulty(classify(p[i])) {
        var i :| 0 <= i < |p| && Faulty(classify(p[i]));
        assert Faulty(classify(nodes[i]));
      }
    }
  }

  /**
   * The date in force after a pass is the one set by the last element that
   * changed it; when none did, it is the date the pass started with.
   */
  lemma {:induction false} DateInForce(classify: Element -> Action, st: ScanState, nodes: seq<Element>)
    requires Run(classify, st, nodes).Ok?
    ensures forall i :: LatestChange(classify, nodes, i) ==>
      Run(classify, st, nodes).value.current == DateSet(classify(nodes[i]))
    ensures (forall i :: 0 <= i < |nodes| ==> !ChangesDate(classify(nodes[i]))) ==>
      Run(classify, st, nodes).value.current == st.current
    decreases |nodes|
  {
    if nodes != [] {
      var n := |nodes| - 1;
      var p := nodes[..n];
      assert forall i :: 0 <= i < |p| ==> p[i] == nodes[i];
      DateInForce(classify, st, p);
      forall i | LatestChange(classify, nodes, i)
        ensures Run(classify, st, nodes).value.current == DateSet(classify(nodes[i]))
      {
        if i < n {
          assert LatestChange(classify, p, i);
        }
      }
    }
  }

  /** Where some element changes the date, one of them is the last. */
  lemma {:induction false} LatestChangeExists(classify: Element -> Action, nodes: seq<Element>, i: nat)
    requires i < |nodes| && ChangesDate(classify(nodes[i]))
    ensures exists l :: LatestChange(classify, nodes, l)
    decreases |nodes| - i
  {
    if !LatestChange(classify, nodes, i) {
      var j :| i < j < |nodes| && ChangesDate(classify(nodes[j]));
      LatestChangeExists(classify, nodes, j);
    }
  }

  /**
   * Races are only ever appended, and every race a pass adds is a record
   * some element emitted for the date in force when it was reached.
   */
  lemma {:induction false} RacesEmitted(classify: Element -> Action, st: ScanState, nodes: seq<Element>)
    requires Run(classify, st, nodes).Ok?
    ensures Extends(Run(classify, st, nodes).value.races, st.races)
    ensures forall k :: |st.races| <= k < |Run(classify, st, nodes).value.races| ==>
      Emitted(classify, st, nodes, Run(classify, st, nodes).value.races[k])
    decreases |nodes|
  {
    if nodes != [] {
      var n := |nodes| - 1;
      var p := nodes[..n];
      RacesEmitted(classify, st, p);
      var s := Run(classify, st, p).value;
      var races := Run(classify, st, nodes).value.races;
      var a := classify(nodes[n]);
      assert races == if a.Emit? && s.current.Some? then s.races + a.records(s.current.value) else s.races;
      forall k | |st.races| <= k < |races|
        ensures Emitted(classify, st, nodes, races[k])
      {
        if k < |s.races| {
          assert Emitted(classify, st, p, s.races[k]);
          var w :| 0 <= w < |p| && EmitsAt(classify, st, p, w, s.races[k]);
          assert races[k] == s.races[k];
          assert nodes[..w] == p[..w];
          assert EmitsAt(classify, st, nodes, w, races[k]);
        } else {
          assert a.Emit? && s.current.Some?;
          assert races[k] in a.records(s.current.value);
          assert nodes[..n] == p;
          assert EmitsAt(classify, st, nodes, n, races[k]);
        }
      }
    }
  }
}
