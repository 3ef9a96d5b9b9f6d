/** What the program stores as "the section" of a frame, and the cutout text it
    sends to the viewer for it (stack.py:147-150). */
module Sections {
  import opened Outcomes
  import opened Text
  import opened Coordinates

  /** A frame's section: a tile, Python's None (load the whole image), or the text
      "None", the only value that the comparisons `section == "None"` at stack.py:98
      and stack.py:119 accept. */
  datatype Section = Cut(tile: Tile) | Uncropped | NoneText

  /** The tuple that load_regions and save_regions subscript: a tile as it is, the
      fallback (1, 0, 1, 0) for the text "None", and nothing for Python's None,
      whose subscript raises a TypeError. */
  function SectionTuple(s: Section): (r: Option<Tile>)
    ensures r.None? <==> s == Uncropped
    ensures s.Cut? ==> r == Some(s.tile)
  {
    match s
    case Cut(t) => Some(t)
    case Uncropped => None
    case NoneText => Some(Tile(1, 0, 1, 0))
  }

  /** The cutout suffix of the `file` command: "[x_min:x_max,y_min:y_max]" for a
      tile, "[*,*]" for None, and the characters of "None" in the four slots for the
      text "None". */
  function CutoutText(s: Section): (r: string)
    ensures |r| >= 5 && r[0] == '[' && r[|r| - 1] == ']'
    ensures r[1] == '*' <==> s == Uncropped
  {
    match s
    case Cut(t) =>
      var x0 := IntToString(t.xMin);
      var r := "[" + x0 + ":" + IntToString(t.xMax) + ","
          + IntToString(t.yMin) + ":" + IntToString(t.yMax) + "]";
      assert r[1] == x0[0];
      r
    case Uncropped => "[*,*]"
    case NoneText => "[N:o,n:e]"
  }

  /** The prefix before the first `c` and the rest after it. */
  function SplitAt(s: string, c: char): Option<(string, string)> {
    if s == [] then None
    else if s[0] == c then Some(([], s[1..]))
    else match SplitAt(s[1..], c)
      case None => None
      case Some(parts) => Some(([s[0]] + parts.0, parts.1))
  }

  lemma {:induction false} SplitAtFirst(a: string, c: char, b: string)
    requires c !in a
    ensures SplitAt(a + [c] + b, c) == Some((a, b))
  {
    if a != [] {
      SplitAtFirst(a[1..], c, b);
      assert (a + [c] + b)[1..] == a[1..] + [c] + b;
      assert [a[0]] + a[1..] == a;
    } else {
      assert a + [c] + b == [c] + b;
    }
  }

  function ParseRange(s: string): Option<(int, int)> {
    match SplitAt(s, ':')
    case None => None
    case Some(parts) =>
      match (ParseInt(parts.0), ParseInt(parts.1))
      case (Some(lo), Some(hi)) => Some((lo, hi))
      case _ => None
  }

  /** How the viewer reads a "[x_min:x_max,y_min:y_max]" cutout back into bounds. */
  function ParseCutout(s: string): Option<Tile> {
    if |s| < 2 || s[0] != '[' || s[|s| - 1] != ']' then None
    else match SplitAt(s[1..|s| - 1], ',')
      case None => None
      case Some(parts) =>
        match (ParseRange(parts.0), ParseRange(parts.1))
        case (Some(xr), Some(yr)) => Some(Tile(xr.0, xr.1, yr.0, yr.1))
        case _ => None
  }

  lemma ParseRangeOf(lo: int, hi: int)
    ensures ParseRange(IntToString(lo) + ":" + IntToString(hi)) == Some((lo, hi))
  {
    SplitAtFirst(IntToString(lo), ':', IntToString(hi));
    assert IntToString(lo) + ":" + IntToString(hi) == IntToString(lo) + [':'] + IntToString(hi);
    IntToStringRoundTrip(lo);
    IntToStringRoundTrip(hi);
  }

  /** The cutout of a tile names exactly that tile: the viewer reads the bounds back. */
  lemma CutoutRoundTrip(t: Tile)
    ensures ParseCutout(CutoutText(Cut(t))) == Some(t)
  {
    var xs := IntToString(t.xMin) + ":" + IntToString(t.xMax);
    var ys := IntToString(t.yMin) + ":" + IntToString(t.yMax);
    var s := CutoutText(Cut(t));
    assert s == "[" + (xs + [','] + ys) + "]";
    assert s[1..|s| - 1] == xs + [','] + ys;
    assert ',' !in xs;
    SplitAtFirst(xs, ',', ys);
    ParseRangeOf(t.xMin, t.xMax);
    ParseRangeOf(t.yMin, t.yMax);
  }

  /** Different tiles give different cutouts. */
  lemma CutoutInjective(t1: Tile, t2: Tile)
    requires CutoutText(Cut(t1)) == CutoutText(Cut(t2))
    ensures t1 == t2
  {
    CutoutRoundTrip(t1);
    CutoutRoundTrip(t2);
  }

  lemma CutoutExample()
    ensures CutoutText(Cut(Tile(1, 129, 1, 129))) == "[1:129,1:129]"
  {
    assert NatToString(1) == "1";
    assert NatToString(12) == "12";
    assert NatToString(129) == "129";
  }
}
