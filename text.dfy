/** Character-string helpers the program gets from Python: decimal formatting of
    integers, the `in` test on strings, and `os.path.splitext`. */
module Text {
  import opened Outcomes

  predicate IsDigit(c: char) {
    '0' <= c <= '9'
  }

  predicate AllDigits(s: string) {
    forall i :: 0 <= i < |s| ==> IsDigit(s[i])
  }

  function DigitChar(d: nat): (c: char)
    requires d < 10
    ensures IsDigit(c) && c as int - '0' as int == d
  {
    ('0' as int + d) as char
  }

  /** `str(n)` for a non-negative integer. */
  function NatToString(n: nat): (s: string)
    ensures s != [] && AllDigits(s)
  {
    if n < 10 then [DigitChar(n)] else NatToString(n / 10) + [DigitChar(n % 10)]
  }

  function DigitsValue(s: string): nat
    requires AllDigits(s)
  {
    if s == [] then 0 else DigitsValue(s[..|s| - 1]) * 10 + (s[|s| - 1] as int - '0' as int)
  }

  /** Reading a non-empty run of decimal digits back as a number. */
  function ParseNat(s: string): Option<nat> {
    if s != [] && AllDigits(s) then Some(DigitsValue(s)) else None
  }

  lemma {:induction false} NatToStringRoundTrip(n: nat)
    ensures ParseNat(NatToString(n)) == Some(n)
  {
    var s := NatToString(n);
    if n >= 10 {
      NatToStringRoundTrip(n / 10);
      assert s[..|s| - 1] == NatToString(n / 10);
      assert s[|s| - 1] == DigitChar(n % 10);
      assert DigitsValue(s) == (n / 10) * 10 + n % 10;
    } else {
      assert DigitsValue(s) == DigitsValue([]) * 10 + (s[0] as int - '0' as int);
    }
  }

  /** `str(i)` for any integer, as `format` writes it. */
  function IntToString(i: int): (s: string)
    ensures forall k :: 0 <= k < |s| ==> IsDigit(s[k]) || s[k] == '-'
  {
    if i < 0 then "-" + NatToString(-i) else NatToString(i)
  }

  function ParseInt(s: string): Option<int> {
    if s != [] && s[0] == '-' then
      match ParseNat(s[1..])
      case None => None
      case Some(n) => Some(-(n as int))
    else
      match ParseNat(s)
      case None => None
      case Some(n) => Some(n)
  }

  lemma IntToStringRoundTrip(i: int)
    ensures ParseInt(IntToString(i)) == Some(i)
  {
    if i < 0 {
      var s := IntToString(i);
      assert s[1..] == NatToString(-i);
      NatToStringRoundTrip(-i);
    } else {
      NatToStringRoundTrip(i);
    }
  }

  /** Python's `sub in s` on strings. */
  function Contains(s: string, sub: string): bool {
    |sub| <= |s| && (s[..|sub|] == sub || (s != [] && Contains(s[1..], sub)))
  }

  predicate OccursAt(s: string, sub: string, i: int) {
    0 <= i <= |s| - |sub| && s[i..i + |sub|] == sub
  }

  lemma {:induction false} ContainsMeansSubstring(s: string, sub: string)
    ensures Contains(s, sub) <==> exists i :: OccursAt(s, sub, i)
  {
    if |sub| <= |s| && s[..|sub|] != sub && s != [] {
      ContainsMeansSubstring(s[1..], sub);
      if exists i :: OccursAt(s, sub, i) {
        var i :| OccursAt(s, sub, i);
        assert i != 0;
        assert s[1..][i - 1..i - 1 + |sub|] == sub;
        assert OccursAt(s[1..], sub, i - 1);
      }
      if Contains(s[1..], sub) {
        var i :| OccursAt(s[1..], sub, i);
        assert s[i + 1..i + 1 + |sub|] == sub;
        assert OccursAt(s, sub, i + 1);
      }
    } else if |sub| <= |s| && s[..|sub|] == sub {
      assert OccursAt(s, sub, 0);
    }
  }

  /** `s.rfind(c)`: the index of the last `c` in `s`, or -1. */
  function RFind(s: string, c: char): (k: int)
    ensures -1 <= k < |s|
    ensures k >= 0 ==> s[k] == c
    ensures forall j :: k < j < |s| ==> s[j] != c
  {
    if s == [] then -1
    else if s[|s| - 1] == c then |s| - 1
    else RFind(s[..|s| - 1], c)
  }

  lemma RFindIgnoresSuffix(s: string, t: string, c: char)
    requires c !in t
    ensures RFind(s + t, c) == RFind(s, c)
  {
    assert forall j :: |s| <= j < |s + t| ==> (s + t)[j] == t[j - |s|];
    assert forall j :: 0 <= j < |s| ==> (s + t)[j] == s[j];
  }

  predicate HasNonDot(p: string, lo: int, hi: int)
    requires 0 <= lo <= hi <= |p|
  {
    exists k :: lo <= k < hi && p[k] != '.'
  }

  /** `os.path.splitext` on a POSIX path: the extension starts at the last dot of the
      last path component, unless everything before that dot in the component is dots. */
  function SplitExt(p: string): (parts: (string, string))
    ensures parts.0 + parts.1 == p
    ensures parts.1 == [] || (parts.1[0] == '.' && '.' !in parts.1[1..] && '/' !in parts.1)
  {
    var sep := RFind(p, '/');
    var dot := RFind(p, '.');
    if dot > sep && HasNonDot(p, sep + 1, dot) then
      (p[..dot], p[dot..])
    else
      (p, [])
  }

  /** The last component of a path has a character other than a dot. */
  predicate NamedComponent(p: string) {
    HasNonDot(p, RFind(p, '/') + 1, |p|)
  }

  const CooExtension: string := "coo"

  /** `DisplayManager.region_filename` applied to an image name (stack.py:91): the
      image's extension, if any, replaced by ".coo", so the name ends in ".coo" and is
      never longer than the image name by more than those four characters. */
  function CooName(image: string): (r: string)
    ensures |r| >= 4 && r[|r| - 4] == '.' && r[|r| - 3] == 'c' && r[|r| - 2] == 'o' && r[|r| - 1] == 'o'
    ensures |r| <= |image| + 4
  {
    SplitExt(image).0 + "." + CooExtension
  }

  /** Putting the image's own extension back in place of ".coo" gives the image name. */
  lemma CooNameRestores(image: string)
    ensures CooName(image)[..|CooName(image)| - 4] + SplitExt(image).1 == image
  {
    var stem := SplitExt(image).0;
    assert CooName(image)[..|CooName(image)| - 4] == stem;
  }

  /** Replacing an extension: for a path whose last component is named, and any
      extension in the shape splitext recognises, the sidecar is the stem plus ".coo". */
  lemma CooNameReplacesExtension(stem: string, ext: string)
    requires NamedComponent(stem)
    requires ext != [] && ext[0] == '.' && '.' !in ext[1..] && '/' !in ext
    ensures SplitExt(stem + ext) == (stem, ext)
    ensures CooName(stem + ext) == stem + ".coo"
  {
    var p := stem + ext;
    RFindIgnoresSuffix(stem, ext, '/');
    assert RFind(p, '.') == |stem| by {
      assert p[|stem|] == '.';
      forall j | |stem| < j < |p| ensures p[j] != '.' {
        assert p[j] == ext[1..][j - |stem| - 1];
      }
    }
    var sep := RFind(stem, '/');
    var k :| sep + 1 <= k < |stem| && stem[k] != '.';
    assert p[k] == stem[k];
    assert p[..|stem|] == stem;
    assert p[|stem|..] == ext;
  }

  /** Taking the sidecar name of a sidecar name changes nothing, so long as the stem
      names something. */
  lemma CooNameIdempotent(image: string)
    requires NamedComponent(SplitExt(image).0)
    ensures CooName(CooName(image)) == CooName(image)
  {
    CooNameReplacesExtension(SplitExt(image).0, ".coo");
  }

  /** Images that differ only in their extension share one sidecar. */
  lemma CooNameIgnoresExtension(stem: string, e1: string, e2: string)
    requires NamedComponent(stem)
    requires e1 != [] && e1[0] == '.' && '.' !in e1[1..] && '/' !in e1
    requires e2 != [] && e2[0] == '.' && '.' !in e2[1..] && '/' !in e2
    ensures CooName(stem + e1) == CooName(stem + e2)
  {
    CooNameReplacesExtension(stem, e1);
    CooNameReplacesExtension(stem, e2);
  }

  lemma CooNameExample()
    ensures CooName("a.fits") == "a.coo"
  {
    assert RFind("a", '/') == -1;
    assert NamedComponent("a") by { assert "a"[0] != '.'; }
    CooNameReplacesExtension("a", ".fits");
    assert "a" + ".fits" == "a.fits";
    assert "a" + ".coo" == "a.coo";
  }
}
