/**
 * The parsed page as the scrapers query it. Tree search is done by the HTML
 * parser, so an element arrives here with the answers to the queries the
 * scrapers make of it: its tag, the text strings of its subtree, and the
 * first `em`, `strong` and `a`-with-`href` below it.
 */
module Html {
  import opened Optional
  import opened Text

  /** The tags the scrapers select on; any other tag is `OtherTag`. */
  datatype Tag = H2 | H4 | P | Ul | Li | OtherTag

  /** The first `a` element that has an `href` attribute: the href and the text strings inside it. */
  datatype Anchor = Anchor(href: string, strings: seq<string>)

  /**
   * An element: its tag; the text strings of its subtree in document order;
   * the strings of its first `em` and of its first `strong` descendant, if
   * any; its first `a` with an href, if any; and, for a `ul`, its `li`
   * descendants in document order (`find_all("li")`).
   */
  datatype Element = Element(
    tag: Tag,
    strings: seq<string>,
    em: Option<seq<string>>,
    strong: Option<seq<string>>,
    link: Option<Anchor>,
    items: seq<Element>)

  /** `.text`: the strings concatenated as they are. */
  function AllText(strings: seq<string>): (r: string)
    ensures strings != [] ==> |strings[0]| <= |r| && r[..|strings[0]|] == strings[0]
    ensures r == [] <==> forall k :: 0 <= k < |strings| ==> strings[k] == []
  {
    if strings == [] then "" else strings[0] + AllText(strings[1..])
  }

  /** The strings that `get_text(..., strip=True)` keeps: each stripped, the empty ones dropped. */
  function StrippedStrings(strings: seq<string>): (r: seq<string>)
    ensures forall k :: 0 <= k < |r| ==> r[k] != "" && !IsSpace(r[k][0]) && !IsSpace(r[k][|r[k]| - 1])
  {
    if strings == [] then []
    else
      var s := Strip(strings[0]);
      (if s == "" then [] else [s]) + StrippedStrings(strings[1..])
  }

  /** One string contributes its stripped form, or nothing when it is all white space. */
  lemma StrippedStringsOne(s: string)
    ensures StrippedStrings([s]) == if Strip(s) == "" then [] else [Strip(s)]
  {
    assert [s][1..] == [];
  }

  /** The strings are stripped one by one, in order: the result for `a + b` is that for `a`, then that for `b`. */
  lemma {:induction false} StrippedStringsAppend(a: seq<string>, b: seq<string>)
    ensures StrippedStrings(a + b) == StrippedStrings(a) + StrippedStrings(b)
    decreases |a|
  {
    if a == [] {
      assert a + b == b;
    } else {
      assert (a + b)[0] == a[0] && (a + b)[1..] == a[1..] + b;
      StrippedStringsAppend(a[1..], b);
    }
  }

  /** `sep.join(parts)`. */
  function Join(parts: seq<string>, sep: string): string
  {
    if parts == [] then "" else if |parts| == 1 then parts[0] else parts[0] + sep + Join(parts[1..], sep)
  }

  /** Joining non-empty parts starts with the first part's first character and ends with the last part's last. */
  lemma {:induction false} JoinEnds(parts: seq<string>, sep: string)
    requires |parts| > 0 && forall k :: 0 <= k < |parts| ==> parts[k] != ""
    ensures var t := Join(parts, sep);
      |t| > 0 && t[0] == parts[0][0] && t[|t| - 1] == parts[|parts| - 1][|parts[|parts| - 1]| - 1]
    decreases |parts|
  {
    if |parts| > 1 {
      JoinEnds(parts[1..], sep);
      assert parts[1..][|parts| - 2] == parts[|parts| - 1];
    }
  }

  /**
   * `.get_text(sep, strip=True)`: never starts or ends with white space,
   * whatever the separator, and empty exactly when no string survives stripping.
   */
  function GetText(strings: seq<string>, sep: string): (t: string)
    ensures t != [] ==> !IsSpace(t[0]) && !IsSpace(t[|t| - 1])
    ensures t == [] <==> StrippedStrings(strings) == []
  {
    var parts := StrippedStrings(strings);
    if parts != [] then
      JoinEnds(parts, sep);
      Join(parts, sep)
    else ""
  }

  /** Only strings that are all white space are dropped. */
  lemma {:induction false} StrippedStringsEmpty(strings: seq<string>)
    ensures StrippedStrings(strings) == [] <==>
      forall i, k :: 0 <= i < |strings| && 0 <= k < |strings[i]| ==> IsSpace(strings[i][k])
    decreases |strings|
  {
    if strings != [] {
      StrippedStringsEmpty(strings[1..]);
      assert forall i :: 1 <= i < |strings| ==> strings[1..][i - 1] == strings[i];
    }
  }
}
