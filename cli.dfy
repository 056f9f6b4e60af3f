/** The pure part of the command-line front end (src/main.rs): joining the
    rendered items of a list with ", ", as used for a holiday's counties
    column. */
module Cli {
  import Holidate

  /** `comma_sep`: each item rendered by `show`, joined with ", ". */
  function CommaSep<T>(items: seq<T>, show: T -> string): (r: string)
    ensures items == [] ==> r == ""
    ensures |items| == 1 ==> r == show(items[0])
    ensures items != [] ==> |show(items[0])| <= |r| && r[..|show(items[0])|] == show(items[0])
    decreases |items|
  {
    if |items| == 0 then ""
    else if |items| == 1 then show(items[0])
    else show(items[0]) + ", " + CommaSep(items[1..], show)
  }

  /** The items as rendered, one string each. */
  function Rendered<T>(items: seq<T>, show: T -> string): (r: seq<string>)
    ensures |r| == |items|
    ensures forall i :: 0 <= i < |items| ==> r[i] == show(items[i])
  {
    if items == [] then [] else [show(items[0])] + Rendered(items[1..], show)
  }

  /** The total length of a list of strings. */
  function TotalLength(parts: seq<string>): nat {
    if parts == [] then 0 else |parts[0]| + TotalLength(parts[1..])
  }

  /** Appending an item appends one separator and the item's rendering,
      so the items appear in input order. */
  lemma {:induction false} CommaSepSnoc<T>(items: seq<T>, x: T, show: T -> string)
    requires items != []
    ensures CommaSep(items + [x], show) == CommaSep(items, show) + ", " + show(x)
    decreases |items|
  {
    if |items| > 1 {
      assert (items + [x])[1..] == items[1..] + [x];
      CommaSepSnoc(items[1..], x, show);
    }
  }

  /** The joined string holds each rendered item plus two characters for
      each of the n - 1 separators. */
  lemma {:induction false} CommaSepLength<T>(items: seq<T>, show: T -> string)
    requires items != []
    ensures |CommaSep(items, show)| == TotalLength(Rendered(items, show)) + 2 * (|items| - 1)
    decreases |items|
  {
    if |items| > 1 {
      CommaSepLength(items[1..], show);
      assert Rendered(items, show)[1..] == Rendered(items[1..], show);
    } else {
      assert items[1..] == [];
    }
  }

  /** The joined string is empty exactly when there is nothing to join, or
      one item that renders as the empty string. */
  lemma CommaSepEmpty<T>(items: seq<T>, show: T -> string)
    ensures CommaSep(items, show) == "" <==> items == [] || (|items| == 1 && show(items[0]) == "")
  {
    if |items| > 1 {
      CommaSepLength(items, show);
    }
  }

  // Reading a joined string back -----------------------------------------

  /** The position of the first ',' in `s`. */
  function FirstComma(s: string): (i: nat)
    requires ',' in s
    ensures i < |s| && s[i] == ','
    ensures ',' !in s[..i]
    decreases |s|
  {
    if s[0] == ',' then 0
    else
      assert ',' in s[1..] by {
        var k :| 0 <= k < |s| && s[k] == ',';
        assert s[1..][k - 1] == ',';
      }
      var j := FirstComma(s[1..]);
      assert s[..j + 1] == [s[0]] + s[1..][..j];
      1 + j
  }

  /** Splits a string at each ", " (a ',' followed by its space). */
  function SplitCommaSep(s: string): seq<string>
    decreases |s|
  {
    if ',' !in s then [s]
    else
      var i := FirstComma(s);
      [s[..i]] + SplitCommaSep(s[if i + 2 <= |s| then i + 2 else |s|..])
  }

  lemma FirstCommaOfJoin(a: string, b: string)
    requires ',' !in a
    ensures ',' in a + ", " + b && FirstComma(a + ", " + b) == |a|
  {
    var s := a + ", " + b;
    assert s[|a|] == ',';
    assert s[..|a|] == a;
    var i := FirstComma(s);
    assert s[..i] == a[..i] || |a| < i;
  }

  /** Splitting a joined string gives back the rendered items, in order,
      provided no rendering itself contains a ','. */
  lemma {:induction false} SplitCommaSepRoundTrip<T>(items: seq<T>, show: T -> string)
    requires items != []
    requires forall i :: 0 <= i < |items| ==> ',' !in show(items[i])
    ensures SplitCommaSep(CommaSep(items, show)) == Rendered(items, show)
    decreases |items|
  {
    if |items| == 1 {
      assert Rendered(items, show) == [show(items[0])];
    } else {
      var head, rest := show(items[0]), CommaSep(items[1..], show);
      var s := head + ", " + rest;
      FirstCommaOfJoin(head, rest);
      assert s[..|head|] == head;
      assert s[|head| + 2..] == rest;
      SplitCommaSepRoundTrip(items[1..], show);
      assert Rendered(items, show) == [head] + Rendered(items[1..], show);
    }
  }

  // The counties column of a printed holiday --------------------------------

  function Identity(s: string): string {
    s
  }

  /** `comma_sep(&counties)` in `print_holiday`. */
  function CountiesColumn(h: Holidate.Holiday): (column: string)
    ensures h.counties == [] ==> column == ""
    ensures |h.counties| == 1 ==> column == h.counties[0]
    ensures |h.counties| > 1 ==> |column| >= |h.counties[0]| + 2 && column[..|h.counties[0]| + 2] == h.counties[0] + ", "
  {
    CommaSep(h.counties, Identity)
  }

  /** A nationwide holiday (no counties) has an empty counties column, and
      a non-empty column always means some county is listed. */
  lemma NationwideColumn(h: Holidate.Holiday)
    ensures h.counties == [] ==> CountiesColumn(h) == ""
    ensures CountiesColumn(h) == "" ==> h.counties == [] || h.counties == [""]
  {
    CommaSepEmpty(h.counties, Identity);
  }
}
