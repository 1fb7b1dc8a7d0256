/**
 * Formatting and classification helpers (src/lib/utils.ts): the day-of-month
 * suffix, the extension of a file name, the image-extension test and the unit
 * selection of the byte-size formatter.
 */
module Utils {

  // ---------------------------------------------------------------------------
  // ASCII character classes. The regular expressions of utils.ts carry the `i`
  // flag without `u`; in that mode case-insensitive matching folds ASCII letters
  // only, so ASCII lower-casing is the exact comparison they perform.
  // ---------------------------------------------------------------------------

  predicate IsAsciiDigit(c: char) { '0' <= c <= '9' }

  predicate IsAsciiLetter(c: char) { 'a' <= c <= 'z' || 'A' <= c <= 'Z' }

  /** The class `[a-z0-9]` under the `i` flag. */
  predicate IsAsciiAlnum(c: char) { IsAsciiDigit(c) || IsAsciiLetter(c) }

  predicate IsLowerAlnum(c: char) { IsAsciiDigit(c) || 'a' <= c <= 'z' }

  function AsciiLower(c: char): char
  {
    if 'A' <= c <= 'Z' then (c as int + 32) as char else c
  }

  function Lower(s: string): string
  {
    seq(|s|, i requires 0 <= i < |s| => AsciiLower(s[i]))
  }

  // ---------------------------------------------------------------------------
  // ordinal (utils.ts:20-27)
  // ---------------------------------------------------------------------------

  /** JavaScript's `%` on integers: the remainder takes the sign of the dividend. */
  function JsRem(a: int, b: int): (r: int)
    requires b > 0
    ensures a >= 0 ==> 0 <= r < b
    ensures a < 0 ==> -b < r <= 0
    ensures a >= 0 ==> r == a - b * (a / b)
    ensures a < 0 ==> r == a + b * ((-a) / b)
  {
    if a >= 0 then a % b else -((-a) % b)
  }

  /**
   * The English rule for day suffixes, stated on the last two decimal digits:
   * the teens take "th"; otherwise a last digit 1, 2, 3 takes "st", "nd", "rd".
   */
  function EnglishSuffix(ones: int, tens: int): string
  {
    if tens == 1 then "th"
    else if ones == 1 then "st"
    else if ones == 2 then "nd"
    else if ones == 3 then "rd"
    else "th"
  }

  /** The suffix `ordinal(d)` appends to a day of the month. */
  function Ordinal(d: int): (s: string)
    ensures d < 0 ==> s == "th"
    ensures d >= 0 ==> s == EnglishSuffix(d % 10, (d / 10) % 10)
  {
    var j := JsRem(d, 10);
    var k := JsRem(d, 100);
    LastTwoDigits(d);
    if j == 1 && k != 11 then "st"
    else if j == 2 && k != 12 then "nd"
    else if j == 3 && k != 13 then "rd"
    else "th"
  }

  /** The remainder by 100 is made of the tens digit and the ones digit. */
  lemma LastTwoDigits(d: int)
    ensures d >= 0 ==> d % 100 == 10 * ((d / 10) % 10) + d % 10
  {
    if d >= 0 {
      var q := d / 10;
      var t := q % 10;
      var h := q / 10;
      assert d == 10 * q + d % 10;
      assert q == 10 * h + t;
      assert d == 100 * h + (10 * t + d % 10);
      assert 0 <= 10 * t + d % 10 < 100;
    }
  }

  /** The suffix depends only on the last two digits of a non-negative day. */
  lemma OrdinalPeriodic(d: nat, m: nat)
    ensures Ordinal(d + 100 * m) == Ordinal(d)
  {
    var e := d + 100 * m;
    assert e % 10 == d % 10 && (e / 10) % 10 == (d / 10) % 10 by {
      assert e == d + 100 * m;
      assert e / 10 == d / 10 + 10 * m by {
        assert e == 10 * (d / 10 + 10 * m) + d % 10;
      }
    }
  }

  lemma OrdinalExamples()
    ensures Ordinal(1) == "st" && Ordinal(2) == "nd" && Ordinal(3) == "rd"
    ensures Ordinal(4) == "th" && Ordinal(11) == "th" && Ordinal(12) == "th"
    ensures Ordinal(13) == "th" && Ordinal(21) == "st" && Ordinal(22) == "nd"
    ensures Ordinal(23) == "rd" && Ordinal(31) == "st" && Ordinal(111) == "th"
  {
  }

  // ---------------------------------------------------------------------------
  // ext (utils.ts:38-41)
  // ---------------------------------------------------------------------------

  /**
   * The pattern `\.([a-z0-9]+)$` (flag `i`) matches at position p of name: a dot
   * followed by a non-empty run of ASCII letters and digits that reaches the end.
   */
  ghost predicate ExtMatchAt(name: string, p: int)
  {
    0 <= p < |name| - 1 && name[p] == '.' && forall i :: p < i < |name| ==> IsAsciiAlnum(name[i])
  }

  /** Length of the longest suffix of s made only of ASCII letters and digits. */
  function AlnumSuffixLen(s: string): (k: nat)
    ensures k <= |s|
    ensures forall i :: |s| - k <= i < |s| ==> IsAsciiAlnum(s[i])
    ensures k < |s| ==> !IsAsciiAlnum(s[|s| - k - 1])
    decreases |s|
  {
    if |s| == 0 || !IsAsciiAlnum(s[|s| - 1]) then 0
    else 1 + AlnumSuffixLen(s[..|s| - 1])
  }

  /**
   * `ext(name)`: the lower-cased capture of the pattern when it matches, "" otherwise.
   * The pattern can only match at one place, the last dot, so the result is the
   * text after the last dot when that text is a non-empty ASCII alphanumeric run.
   */
  function Ext(name: string): (e: string)
    ensures e == "" || forall i :: 0 <= i < |e| ==> IsLowerAlnum(e[i])
    ensures e != "" <==> exists p :: ExtMatchAt(name, p)
    ensures forall p :: ExtMatchAt(name, p) ==> e == Lower(name[p + 1..])
  {
    var k := AlnumSuffixLen(name);
    if 0 < k < |name| && name[|name| - k - 1] == '.' then
      assert ExtMatchAt(name, |name| - k - 1);
      Lower(name[|name| - k..])
    else
      assert forall p :: !ExtMatchAt(name, p) by {
        forall p | ExtMatchAt(name, p) ensures false {
          ExtAtDot(name, p);
        }
      }
      ""
  }

  lemma ExtAtDot(name: string, p: int)
    requires ExtMatchAt(name, p)
    ensures p == |name| - AlnumSuffixLen(name) - 1
  {
  }

  lemma ExtExamples()
    ensures Ext("a.tar.GZ") == "gz"
    ensures Ext("photo.JPeG") == "jpeg"
    ensures Ext("README") == ""
    ensures Ext("a.") == ""
    ensures Ext("a.b-c") == ""
  {
    assert ExtMatchAt("a.tar.GZ", 5);
    assert Lower("GZ") == "gz";
    assert ExtMatchAt("photo.JPeG", 5);
    assert Lower("JPeG") == "jpeg";
    assert forall p :: !ExtMatchAt("README", p);
    assert forall p :: !ExtMatchAt("a.", p);
    assert AlnumSuffixLen("a.b-") == 0;
    assert AlnumSuffixLen("a.b-c") == 1;
  }

  // ---------------------------------------------------------------------------
  // isImageExt (utils.ts:43-45)
  // ---------------------------------------------------------------------------

  /** The extensions recognised as images. */
  const ImageExts: set<string> := {"png", "jpg", "jpeg", "gif", "bmp", "webp", "svg"}

  /** Whole-string equality under ASCII case folding (an anchored match with flag `i`). */
  predicate EqualsIgnoringCase(a: string, b: string)
  {
    |a| == |b| && forall i :: 0 <= i < |a| ==> AsciiLower(a[i]) == AsciiLower(b[i])
  }

  /**
   * `isImageExt(e)`: the anchored, case-insensitive alternation
   * `^(png|jpe?g|gif|bmp|webp|svg)$`, with `jpe?g` written out as two alternatives.
   */
  function IsImageExt(e: string): (b: bool)
    ensures b <==> Lower(e) in ImageExts
  {
    FoldEquality(e, "png"); FoldEquality(e, "jpg"); FoldEquality(e, "jpeg"); FoldEquality(e, "gif");
    FoldEquality(e, "bmp"); FoldEquality(e, "webp"); FoldEquality(e, "svg");
    assert Lower("png") == "png" && Lower("jpg") == "jpg" && Lower("jpeg") == "jpeg" && Lower("gif") == "gif";
    assert Lower("bmp") == "bmp" && Lower("webp") == "webp" && Lower("svg") == "svg";
    EqualsIgnoringCase(e, "png") || EqualsIgnoringCase(e, "jpg") || EqualsIgnoringCase(e, "jpeg")
    || EqualsIgnoringCase(e, "gif") || EqualsIgnoringCase(e, "bmp") || EqualsIgnoringCase(e, "webp")
    || EqualsIgnoringCase(e, "svg")
  }

  lemma FoldEquality(a: string, b: string)
    ensures EqualsIgnoringCase(a, b) <==> Lower(a) == Lower(b)
  {
    if Lower(a) == Lower(b) {
      assert |a| == |Lower(a)|;
      forall i | 0 <= i < |a| ensures AsciiLower(a[i]) == AsciiLower(b[i]) {
        assert Lower(a)[i] == Lower(b)[i];
      }
    }
  }

  /** Lower-casing a string that is already lower case changes nothing. */
  lemma LowerOfLowerAlnum(e: string)
    requires forall i :: 0 <= i < |e| ==> IsLowerAlnum(e[i])
    ensures Lower(e) == e
  {
  }

  /** On the output of Ext the test is plain membership: `ext` already lower-cases. */
  lemma ImageExtOfExt(name: string)
    ensures IsImageExt(Ext(name)) <==> Ext(name) in ImageExts
    ensures IsImageExt(Ext(name)) ==> Ext(name) != ""
  {
    LowerOfLowerAlnum(Ext(name));
  }

  lemma IsImageExtAccepts()
    ensures IsImageExt("PNG") && IsImageExt("jpg") && IsImageExt("JpEg") && IsImageExt("svg")
  {
    assert Lower("PNG") == "png";
    assert Lower("jpg") == "jpg";
    assert Lower("JpEg") == "jpeg";
    assert Lower("svg") == "svg";
  }

  lemma IsImageExtRejects()
    ensures !IsImageExt("") && !IsImageExt("jpgg") && !IsImageExt("pdf") && !IsImageExt("jpe")
  {
    assert Lower("") == "";
    assert Lower("jpgg") == "jpgg";
    assert Lower("pdf") == "pdf";
    assert Lower("jpe") == "jpe";
  }

  // ---------------------------------------------------------------------------
  // bytes (utils.ts:8-18)
  // ---------------------------------------------------------------------------

  /** A JavaScript number. Dividing by 1024 is exact in binary floating point, so the finite ones are reals here. */
  datatype JsNumber = Finite(x: real) | NaN | Infinity | NegativeInfinity

  /** The unit names, indexed by the number of divisions by 1024. */
  const Units: seq<string> := ["B", "KB", "MB", "GB", "TB"]

  function Pow1024(i: nat): (p: real)
    ensures p >= 1.0
  {
    if i == 0 then 1.0 else 1024.0 * Pow1024(i - 1)
  }

  lemma {:induction false} Pow1024Increasing(i: nat, j: nat)
    requires i < j
    ensures Pow1024(i) < Pow1024(j)
    decreases j
  {
    if i + 1 < j {
      Pow1024Increasing(i, j - 1);
    }
  }

  /** The largest i <= k with n >= 1024^i, or 0 when there is none. */
  function LargestUnit(n: real, k: nat): (i: nat)
    ensures i <= k
    ensures i == 0 || n >= Pow1024(i)
    ensures forall j :: i < j <= k ==> n < Pow1024(j)
  {
    if k == 0 then 0 else if n >= Pow1024(k) then k else LargestUnit(n, k - 1)
  }

  /** What `bytes(n)` prints: "—", or a value with a number of decimals and a unit. */
  datatype Rendered = Dash | Amount(value: real, decimals: nat, unit: string)

  /**
   * `bytes(n)`: divide by 1024 while the value is at least 1024 and a larger unit
   * exists; print with no decimals in bytes and two decimals otherwise.
   */
  method Bytes(n: JsNumber) returns (r: Rendered)
    ensures !n.Finite? ==> r == Dash
    ensures n.Finite? ==> r.Amount? && r.unit == Units[LargestUnit(n.x, 4)]
    ensures n.Finite? ==> r.value * Pow1024(LargestUnit(n.x, 4)) == n.x
    ensures n.Finite? ==> r.decimals == if LargestUnit(n.x, 4) == 0 then 0 else 2
  {
    if !n.Finite? {
      return Dash;
    }
    var i: nat := 0;
    var v := n.x;
    while v >= 1024.0 && i < |Units| - 1
      invariant i <= 4
      invariant v * Pow1024(i) == n.x
      invariant i == 0 || n.x >= Pow1024(i)
      decreases 4 - i
    {
      DivideStep(v, Pow1024(i));
      v := v / 1024.0;
      i := i + 1;
    }
    if i < 4 {
      ScaleBelow(v, Pow1024(i));
    }
    UnitIndexIsLargest(n.x, i);
    r := Amount(v, if i != 0 then 2 else 0, Units[i]);
  }

  /** One loop step keeps `v * 1024^i` fixed and, from v >= 1024, raises the lower bound by one unit. */
  lemma DivideStep(v: real, p: real)
    requires p >= 1.0
    ensures (v / 1024.0) * (1024.0 * p) == v * p
    ensures v >= 1024.0 ==> v * p >= 1024.0 * p
  {
  }

  /** On exit with v < 1024, the input lies below the next unit. */
  lemma ScaleBelow(v: real, p: real)
    requires p >= 1.0 && v < 1024.0
    ensures v * p < 1024.0 * p
  {
  }

  /** The loop's exit condition pins its index down to LargestUnit. */
  lemma UnitIndexIsLargest(n: real, i: nat)
    requires i <= 4
    requires i == 0 || n >= Pow1024(i)
    requires i == 4 || n < Pow1024(i + 1)
    ensures LargestUnit(n, 4) == i
  {
    var l := LargestUnit(n, 4);
    if l > i {
      Pow1024Increasing(i + 1, l);
      assert Pow1024(i + 1) <= Pow1024(l);
    }
  }

  lemma UnitExamples()
    ensures LargestUnit(1023.0, 4) == 0
    ensures LargestUnit(1024.0, 4) == 1
    ensures LargestUnit(1048576.0, 4) == 2
    ensures LargestUnit(-5.0, 4) == 0
    ensures LargestUnit(Pow1024(7), 4) == 4
  {
    UnitIndexIsLargest(1023.0, 0);
    UnitIndexIsLargest(1024.0, 1);
    UnitIndexIsLargest(1048576.0, 2);
    UnitIndexIsLargest(-5.0, 0);
    Pow1024Increasing(4, 7);
    UnitIndexIsLargest(Pow1024(7), 4);
  }
}
