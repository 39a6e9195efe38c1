/**
  The cleaning `fetch_gasolineras` applies to the price listing after download:
  decimal commas become points and surrounding whitespace is stripped before
  numeric conversion, and rows whose latitude or longitude is missing or zero
  are dropped.
*/
module PriceCleaning {
  import opened Wrappers

  /** A listing row after numeric conversion: `None` stands for a cell that did not parse (NaN). */
  datatype RawStation = RawStation(lat: Option<real>, lon: Option<real>, prices: map<string, real>)

  /**
    The characters Python's `str.strip()` removes (`str.isspace`): tab to
    carriage return, the four ASCII separators 0x1C-0x1F, space, next line,
    no-break space, and the Unicode space and line/paragraph separators.
  */
  predicate IsSpace(c: char) {
    || ('\t' <= c <= '\r')
    || ('\U{001C}' <= c <= ' ')
    || c == '\U{0085}' || c == '\U{00A0}' || c == '\U{1680}'
    || ('\U{2000}' <= c <= '\U{200A}')
    || c == '\U{2028}' || c == '\U{2029}' || c == '\U{202F}' || c == '\U{205F}' || c == '\U{3000}'
  }

  /** `s.replace(",", ".")`. */
  function ReplaceCommas(s: string): (r: string)
    ensures |r| == |s|
    ensures forall i :: 0 <= i < |s| ==> r[i] == (if s[i] == ',' then '.' else s[i])
  {
    if s == [] then [] else [if s[0] == ',' then '.' else s[0]] + ReplaceCommas(s[1..])
  }

  /** The number of leading whitespace characters of `s`. */
  function LeadingSpaces(s: string): (k: nat)
    ensures k <= |s|
    ensures forall i :: 0 <= i < k ==> IsSpace(s[i])
    ensures k == |s| || !IsSpace(s[k])
  {
    if s != [] && IsSpace(s[0]) then 1 + LeadingSpaces(s[1..]) else 0
  }

  /** The length of `s` without its trailing whitespace. */
  function ContentEnd(s: string): (k: nat)
    ensures k <= |s|
    ensures forall i :: k <= i < |s| ==> IsSpace(s[i])
    ensures k == 0 || !IsSpace(s[k - 1])
  {
    if s != [] && IsSpace(s[|s| - 1]) then ContentEnd(s[..|s| - 1]) else |s|
  }

  /** `str.strip()`: removes leading and trailing whitespace. */
  function Strip(s: string): string {
    var l := s[LeadingSpaces(s)..];
    l[..ContentEnd(l)]
  }

  /** The text handed to the numeric parser: commas turned into points, then stripped. */
  function NormalizeNumeric(s: string): string {
    Strip(ReplaceCommas(s))
  }

  /**
    Stripping leaves the input with only whitespace cut from either end, so
    the result starts and ends with a non-blank character.
  */
  lemma StripSpec(t: string)
    ensures var r := Strip(t);
      && (r == [] || (!IsSpace(r[0]) && !IsSpace(r[|r| - 1])))
      && var i := LeadingSpaces(t);
         && r == t[i..i + |r|]
         && (forall m :: 0 <= m < i ==> IsSpace(t[m]))
         && (forall m :: i + |r| <= m < |t| ==> IsSpace(t[m]))
  {
    StripIsSlice(t);
    StripCutsTrailingSpace(t);
    StripEndsNonBlank(t);
  }

  lemma StripIsSlice(t: string)
    ensures Strip(t) == t[LeadingSpaces(t)..LeadingSpaces(t) + |Strip(t)|]
  {
    var i := LeadingSpaces(t);
    var l := t[i..];
    var k := ContentEnd(l);
    assert Strip(t) == l[..k];
    assert l[..k] == t[i..i + k];
  }

  lemma StripCutsTrailingSpace(t: string)
    ensures forall m :: LeadingSpaces(t) + |Strip(t)| <= m < |t| ==> IsSpace(t[m])
  {
    var i := LeadingSpaces(t);
    var l := t[i..];
    var k := ContentEnd(l);
    assert |Strip(t)| == k;
    forall m | i + k <= m < |t|
      ensures IsSpace(t[m])
    {
      assert t[m] == l[m - i];
    }
  }

  lemma StripEndsNonBlank(t: string)
    ensures var r := Strip(t);
      r == [] || (!IsSpace(r[0]) && !IsSpace(r[|r| - 1]))
  {
    var i := LeadingSpaces(t);
    var l := t[i..];
    var k := ContentEnd(l);
    var r := l[..k];
    if r != [] {
      assert r[0] == l[0] == t[i];
      assert r[|r| - 1] == l[k - 1];
    }
  }

  /**
    The normalised text holds no comma and starts and ends with a non-blank
    character; by `StripSpec` it is the comma-replaced input with only
    whitespace cut from either end.
  */
  lemma NormalizeNumericSpec(s: string)
    ensures var r := NormalizeNumeric(s);
      && ',' !in r
      && (r == [] || (!IsSpace(r[0]) && !IsSpace(r[|r| - 1])))
  {
    var t := ReplaceCommas(s);
    StripSpec(t);
    var r := Strip(t);
    var i := LeadingSpaces(t);
    forall m | 0 <= m < |r|
      ensures r[m] != ','
    {
      assert r[m] == t[i + m];
    }
  }

  /** A row survives cleaning iff both coordinates parsed and neither is zero. */
  predicate HasUsableCoordinates(row: RawStation) {
    row.lat.Some? && row.lon.Some? && row.lat.value != 0.0 && row.lon.value != 0.0
  }

  /** `dropna(subset=[lat, lon])` followed by the `!= 0.0` mask on each coordinate. */
  function DropUnlocatedRows(rows: seq<RawStation>): (kept: seq<RawStation>)
    ensures |kept| <= |rows|
    ensures forall x :: x in kept <==> x in rows && HasUsableCoordinates(x)
  {
    if rows == [] then []
    else
      var rest := DropUnlocatedRows(rows[1..]);
      assert forall x :: x in rows <==> x == rows[0] || x in rows[1..];
      if HasUsableCoordinates(rows[0]) then [rows[0]] + rest else rest
  }

  /** Cleaning works row by row and keeps the listing order: it distributes over concatenation. */
  lemma {:induction false} DropUnlocatedRowsDistributes(a: seq<RawStation>, b: seq<RawStation>)
    ensures DropUnlocatedRows(a + b) == DropUnlocatedRows(a) + DropUnlocatedRows(b)
    decreases |a|
  {
    if a != [] {
      assert (a + b)[1..] == a[1..] + b;
      DropUnlocatedRowsDistributes(a[1..], b);
    } else {
      assert a + b == b;
    }
  }
}
