/**
 * The download filename of `doDownload` (src/app/page.tsx:108-111): the
 * fallback name, overridden by the `filename` / `filename*` parameter of the
 * Content-Disposition header (section 4.1 of RFC 6266, with the `UTF-8''`
 * extended form of section 3.2 of RFC 8187) as the loose regular expression
 * `/filename\*?=(?:UTF-8'')?"?([^";]+)/i` finds it, percent-decoded.
 */
module Disposition {
  import opened Wrappers
  import opened Utils
  import opened UriDecode

  /**
   * The eight strings the part `filename\*?=(?:UTF-8'')?"?` can match, in the
   * order a backtracking matcher tries them: each optional part is greedy, so
   * taking it is tried before skipping it.
   */
  const Prefixes: seq<string> := [
    "filename*=UTF-8''\"", "filename*=UTF-8''", "filename*=\"", "filename*=",
    "filename=UTF-8''\"", "filename=UTF-8''", "filename=\"", "filename="]

  /** The class `[^";]`. */
  predicate IsValueChar(c: char)
  {
    c != '"' && c != ';'
  }

  /** lit occurs at position p of s, letters compared without case (flag `i`). */
  predicate LiteralAt(s: string, p: nat, lit: string)
  {
    p + |lit| <= |s| && forall k :: 0 <= k < |lit| ==> AsciiLower(s[p + k]) == AsciiLower(lit[k])
  }

  /** lit occurs at p and is followed by at least one char of `[^";]`: the whole pattern matches. */
  predicate PrefixFits(s: string, p: nat, lit: string)
  {
    LiteralAt(s, p, lit) && p + |lit| < |s| && IsValueChar(s[p + |lit|])
  }

  /** Where the greedy run `[^";]+` that starts at a ends. */
  function ValueEnd(s: string, a: nat): (b: nat)
    requires a <= |s|
    ensures a <= b <= |s|
    ensures forall i :: a <= i < b ==> IsValueChar(s[i])
    ensures b < |s| ==> !IsValueChar(s[b])
    decreases |s| - a
  {
    if a == |s| || !IsValueChar(s[a]) then a else ValueEnd(s, a + 1)
  }

  /** The first alternative, from the k-th on, with which the pattern matches at p. */
  function FirstFit(s: string, p: nat, k: nat): (r: Option<nat>)
    requires k <= |Prefixes|
    ensures r.Some? ==> k <= r.value < |Prefixes| && PrefixFits(s, p, Prefixes[r.value])
    ensures r.Some? ==> forall j :: k <= j < r.value ==> !PrefixFits(s, p, Prefixes[j])
    ensures r.None? ==> forall j :: k <= j < |Prefixes| ==> !PrefixFits(s, p, Prefixes[j])
    decreases |Prefixes| - k
  {
    if k == |Prefixes| then None
    else if PrefixFits(s, p, Prefixes[k]) then Some(k)
    else FirstFit(s, p, k + 1)
  }

  /**
   * The capture group when the pattern matches starting exactly at p: the maximal
   * `[^";]` run after the first alternative that fits (MatchAtCharacterized).
   */
  function MatchAt(s: string, p: nat): (r: Option<string>)
    ensures r.Some? ==> |r.value| > 0 && forall i :: 0 <= i < |r.value| ==> IsValueChar(r.value[i])
  {
    match FirstFit(s, p, 0)
    case None => None
    case Some(k) =>
      var a := p + |Prefixes[k]|;
      Some(s[a..ValueEnd(s, a)])
  }

  /** The first present entry of ms at or after p: how `exec` picks the leftmost match. */
  function Leftmost(ms: seq<Option<string>>, p: nat): (r: Option<string>)
    ensures r.Some? ==> exists q :: p <= q < |ms| && ms[q] == r && forall q' :: p <= q' < q ==> ms[q'].None?
    ensures r.None? ==> forall q :: p <= q < |ms| ==> ms[q].None?
    decreases |ms| - p
  {
    if p >= |ms| then None
    else if ms[p].Some? then ms[p]
    else Leftmost(ms, p + 1)
  }

  /** MatchAt at every position where `exec` tries the pattern, 0 to |s| included. */
  function Attempts(s: string): (ms: seq<Option<string>>)
    ensures |ms| == |s| + 1
  {
    seq(|s| + 1, q requires 0 <= q <= |s| => MatchAt(s, q))
  }

  /** `m && m[1]`: the filename parameter's raw value, if the header has one. */
  function FilenameParam(header: string): (r: Option<string>)
    ensures r.Some? ==> |r.value| > 0 && forall i :: 0 <= i < |r.value| ==> IsValueChar(r.value[i])
  {
    Leftmost(Attempts(header), 0)
  }

  /** `fallbackName || \`file-${id}\``: an absent or empty fallback is replaced. */
  function DefaultName(id: string, fallbackName: Option<string>): (n: string)
    ensures |n| > 0
  {
    if fallbackName.Some? && fallbackName.value != "" then fallbackName.value else "file-" + id
  }

  /**
   * The name the download is saved under, or None when `decodeURIComponent`
   * throws on the header's value (which makes the whole download fail).
   * A missing header reads as "".
   */
  function DownloadName(id: string, fallbackName: Option<string>, disposition: Option<string>): (r: Option<string>)
    ensures r.Some? ==> |r.value| > 0
    ensures FilenameParam(disposition.GetOr("")).None? ==> r == Some(DefaultName(id, fallbackName))
    ensures FilenameParam(disposition.GetOr("")).Some? ==> r == PercentDecode(FilenameParam(disposition.GetOr("")).value)
  {
    match FilenameParam(disposition.GetOr(""))
    case None => Some(DefaultName(id, fallbackName))
    case Some(v) => PercentDecode(v)
  }

  // ---------------------------------------------------------------------------
  // Lemmas
  // ---------------------------------------------------------------------------

  /** The pattern matches at p exactly when one of its alternatives fits there; the first one that fits decides the capture. */
  lemma MatchAtCharacterized(s: string, p: nat)
    ensures MatchAt(s, p).Some? <==> exists k :: 0 <= k < |Prefixes| && PrefixFits(s, p, Prefixes[k])
    ensures MatchAt(s, p).Some? ==> exists k :: (0 <= k < |Prefixes| && PrefixFits(s, p, Prefixes[k])
      && (forall j :: 0 <= j < k ==> !PrefixFits(s, p, Prefixes[j]))
      && MatchAt(s, p).value == s[p + |Prefixes[k]|..ValueEnd(s, p + |Prefixes[k]|)])
  {
    var f := FirstFit(s, p, 0);
    if f.Some? {
      var k := f.value;
      assert PrefixFits(s, p, Prefixes[k]);
    }
  }

  /** The parameter is the capture at the leftmost position where the pattern matches, and None when it matches nowhere. */
  lemma FilenameParamLeftmost(s: string)
    ensures FilenameParam(s).Some? ==> exists q :: (0 <= q <= |s| && MatchAt(s, q) == FilenameParam(s)
      && (forall q' :: 0 <= q' < q ==> MatchAt(s, q').None?))
    ensures FilenameParam(s).None? ==> forall q :: 0 <= q <= |s| ==> MatchAt(s, q).None?
  {
    var ms := Attempts(s);
    assert forall q :: 0 <= q < |ms| ==> ms[q] == MatchAt(s, q);
  }

  /** Every alternative starts with the letter f, so no match starts at any other char. */
  lemma NoMatchWithoutF(s: string, q: nat)
    requires q < |s| && AsciiLower(s[q]) != 'f'
    ensures MatchAt(s, q) == None
  {
    assert forall k :: 0 <= k < |Prefixes| ==> Prefixes[k][0] == 'f';
    forall k | 0 <= k < |Prefixes| ensures !PrefixFits(s, q, Prefixes[k]) {
      assert AsciiLower(s[q + 0]) != AsciiLower(Prefixes[k][0]);
    }
  }

  /** Positions without a match can be skipped. */
  lemma {:induction false} LeftmostSkips(ms: seq<Option<string>>, p: nat, p': nat)
    requires p <= p' <= |ms|
    requires forall q :: p <= q < p' ==> ms[q].None?
    ensures Leftmost(ms, p) == Leftmost(ms, p')
    decreases p' - p
  {
    if p < p' {
      LeftmostSkips(ms, p + 1, p');
    }
  }

  /** A lead-in without the letter f holds no match. */
  predicate NoF(lead: string)
  {
    forall i :: 0 <= i < |lead| ==> AsciiLower(lead[i]) != 'f'
  }

  /** After n chars without the letter f, the parameter is the match at n, if there is one. */
  lemma PastLead(s: string, n: nat)
    requires n <= |s| && forall i :: 0 <= i < n ==> AsciiLower(s[i]) != 'f'
    requires MatchAt(s, n).Some?
    ensures FilenameParam(s) == MatchAt(s, n)
  {
    var ms := Attempts(s);
    forall q | 0 <= q < n ensures ms[q].None? {
      NoMatchWithoutF(s, q);
    }
    LeftmostSkips(ms, 0, n);
    assert ms[n] == MatchAt(s, n);
  }

  /** A header without the letter f has no filename parameter. */
  lemma NoFNoParam(s: string)
    requires NoF(s)
    ensures FilenameParam(s) == None
  {
    var ms := Attempts(s);
    forall q | 0 <= q < |ms| ensures ms[q].None? {
      if q < |s| {
        NoMatchWithoutF(s, q);
      } else {
        assert forall k :: 0 <= k < |Prefixes| ==> !PrefixFits(s, q, Prefixes[k]);
      }
    }
  }

  /** The alternatives 0 to 3 need a '*' after `filename`. */
  lemma NoStar(s: string, p: nat)
    requires p + 8 < |s| && s[p + 8] == '='
    ensures forall j :: 0 <= j < 4 ==> !PrefixFits(s, p, Prefixes[j])
  {
    assert forall j :: 0 <= j < 4 ==> Prefixes[j][8] == '*';
    forall j | 0 <= j < 4 ensures !PrefixFits(s, p, Prefixes[j]) {
      assert AsciiLower(s[p + 8]) != AsciiLower(Prefixes[j][8]);
    }
  }

  /** A run of n value chars at a that nothing extends ends at a + n. */
  lemma RunEnds(s: string, a: nat, n: nat)
    requires a + n <= |s|
    requires forall i :: a <= i < a + n ==> IsValueChar(s[i])
    requires a + n == |s| || !IsValueChar(s[a + n])
    ensures ValueEnd(s, a) == a + n
  {
  }

  /** lit sits at p when each of its chars does. */
  lemma LiteralBehind(s: string, p: nat, lit: string)
    requires p + |lit| <= |s|
    requires forall k :: 0 <= k < |lit| ==> s[p + k] == lit[k]
    ensures LiteralAt(s, p, lit)
  {
  }

  /** lit followed by a run v of `[^";]` chars and a tail that cannot extend the run: the run is captured. */
  lemma CaptureBehind(lead: string, lit: string, v: string, tail: string)
    requires |v| > 0 && forall i :: 0 <= i < |v| ==> IsValueChar(v[i])
    requires tail == [] || !IsValueChar(tail[0])
    ensures PrefixFits(lead + lit + v + tail, |lead|, lit)
    ensures ValueEnd(lead + lit + v + tail, |lead| + |lit|) == |lead| + |lit| + |v|
    ensures (lead + lit + v + tail)[|lead| + |lit|..|lead| + |lit| + |v|] == v
  {
    var s := lead + lit + v + tail;
    var a := |lead| + |lit|;
    assert forall k :: 0 <= k < |lit| ==> s[|lead| + k] == lit[k];
    LiteralBehind(s, |lead|, lit);
    assert forall i :: a <= i < a + |v| ==> s[i] == v[i - a];
    assert a + |v| < |s| ==> s[a + |v|] == tail[0];
    RunEnds(s, a, |v|);
    assert s[a..a + |v|] == v;
  }

  /** The first alternative that fits is the one FirstFit reports. */
  lemma FirstFitIs(s: string, p: nat, k: nat)
    requires k < |Prefixes| && PrefixFits(s, p, Prefixes[k])
    requires forall j :: 0 <= j < k ==> !PrefixFits(s, p, Prefixes[j])
    ensures FirstFit(s, p, 0) == Some(k)
  {
  }

  /**
   * Behind a lead-in without the letter f, the k-th alternative followed by a
   * `[^";]` run v (and then nothing that could extend it) yields v, when no
   * earlier alternative fits there.
   */
  lemma ParamBehindLead(lead: string, k: nat, v: string, tail: string)
    requires NoF(lead) && k < |Prefixes|
    requires |v| > 0 && forall i :: 0 <= i < |v| ==> IsValueChar(v[i])
    requires tail == [] || !IsValueChar(tail[0])
    requires forall j :: 0 <= j < k ==> !PrefixFits(lead + Prefixes[k] + v + tail, |lead|, Prefixes[j])
    ensures FilenameParam(lead + Prefixes[k] + v + tail) == Some(v)
  {
    var s := lead + Prefixes[k] + v + tail;
    CaptureBehind(lead, Prefixes[k], v, tail);
    FirstFitIs(s, |lead|, k);
    assert MatchAt(s, |lead|) == Some(v);
    assert forall i :: 0 <= i < |lead| ==> s[i] == lead[i];
    PastLead(s, |lead|);
  }

  /** Chars that percent-encoding can produce: none of them ends the `[^";]` run. */
  predicate IsEncodedChar(c: char)
  {
    c == '%' || IsHexDigit(c) || IsUnreserved(c)
  }

  /** The extended form `filename*=UTF-8''<enc>` yields enc when enc is non-empty encoded text. */
  lemma ExtendedForm(lead: string, enc: string)
    requires NoF(lead) && |enc| > 0
    requires forall i :: 0 <= i < |enc| ==> IsEncodedChar(enc[i])
    ensures FilenameParam(lead + "filename*=UTF-8''" + enc) == Some(enc)
  {
    var s := lead + Prefixes[1] + enc + "";
    assert |Prefixes[1]| == 17 && Prefixes[0][17] == '"';
    assert s[|lead| + 17] == enc[0];
    if LiteralAt(s, |lead|, Prefixes[0]) {
      LiteralAtChar(s, |lead|, Prefixes[0], 17);
    }
    ParamBehindLead(lead, 1, enc, "");
    assert s == lead + "filename*=UTF-8''" + enc;
  }

  lemma LiteralAtChar(s: string, p: nat, lit: string, k: nat)
    requires LiteralAt(s, p, lit) && k < |lit|
    ensures AsciiLower(s[p + k]) == AsciiLower(lit[k])
  {
  }

  /**
   * The extended form of RFC 8187: a name written as `filename*=UTF-8''<enc>`,
   * with enc its percent-encoding, is recovered exactly.
   */
  lemma ExtendedFormRoundTrip(lead: string, id: string, fallbackName: Option<string>, name: string)
    requires NoF(lead) && |name| > 0
    ensures DownloadName(id, fallbackName, Some(lead + "filename*=UTF-8''" + PercentEncode(name))) == Some(name)
  {
    ExtendedForm(lead, PercentEncode(name));
    DecodeInvertsEncode(name);
  }

  /** The quoted form `filename="<v>"`: v is taken as it stands when it holds no '%'. */
  lemma QuotedForm(lead: string, id: string, fallbackName: Option<string>, v: string)
    requires NoF(lead) && |v| > 0
    requires forall i :: 0 <= i < |v| ==> IsValueChar(v[i]) && v[i] != '%'
    ensures DownloadName(id, fallbackName, Some(lead + "filename=\"" + v + "\"")) == Some(v)
  {
    var s := lead + Prefixes[6] + v + "\"";
    var p := |lead|;
    assert s[p + 8] == '=' && s[p + 9] == '"';
    NoStar(s, p);
    assert !PrefixFits(s, p, Prefixes[4]) && !PrefixFits(s, p, Prefixes[5]) by {
      assert AsciiLower(s[p + 9]) != AsciiLower(Prefixes[4][9]);
      assert AsciiLower(s[p + 9]) != AsciiLower(Prefixes[5][9]);
    }
    ParamBehindLead(lead, 6, v, "\"");
    assert s == lead + "filename=\"" + v + "\"";
  }

  /** Without a filename parameter (or without the header) the fallback is used. */
  lemma NoHeaderUsesFallback(id: string, fallbackName: Option<string>)
    ensures DownloadName(id, fallbackName, None) == Some(DefaultName(id, fallbackName))
    ensures DownloadName(id, None, None) == Some("file-" + id)
    ensures DownloadName(id, Some(""), None) == Some("file-" + id)
  {
    assert MatchAt("", 0) == None;
  }

  // The example `filename="report.pdf"`, one step of the match at a time:
  // the alternative `filename="` is the first to fit, the run ends at the
  // closing quote, and the capture is the text between.

  lemma QuotedFit()
    ensures FirstFit("filename=\"report.pdf\"", 0, 0) == Some(6)
  {
    var s := "filename=\"report.pdf\"";
    NoStar(s, 0);
    assert !LiteralAt(s, 0, Prefixes[4]) && !LiteralAt(s, 0, Prefixes[5]) by {
      assert AsciiLower(s[9]) != AsciiLower(Prefixes[4][9]);
      assert AsciiLower(s[9]) != AsciiLower(Prefixes[5][9]);
    }
    assert PrefixFits(s, 0, Prefixes[6]);
  }

  lemma QuotedEnd()
    ensures ValueEnd("filename=\"report.pdf\"", 10) == 20
  {
  }

  lemma QuotedSlice()
    ensures "filename=\"report.pdf\""[10..20] == "report.pdf"
  {
  }

  lemma QuotedMatch()
    ensures MatchAt("filename=\"report.pdf\"", 0) == Some("report.pdf")
  {
    QuotedFit();
    QuotedEnd();
    QuotedSlice();
  }

  /** `filename="report.pdf"` names the file report.pdf. */
  lemma QuotedExample(id: string, fallbackName: Option<string>)
    ensures DownloadName(id, fallbackName, Some("filename=\"report.pdf\"")) == Some("report.pdf")
  {
    QuotedMatch();
    DecodePlainExample();
  }

  /** A header without any filename parameter leaves the fallback in place. */
  lemma InlineExample(id: string)
    ensures DownloadName(id, Some("x.bin"), Some("inline")) == Some("x.bin")
  {
    NoFNoParam("inline");
  }

  /**
   * A malformed escape in the parameter makes the derivation fail: `100%` ends
   * in a '%' without two hex digits.
   */
  /**
   * Whenever the captured value holds a '%' that is not followed by two hex
   * digits, `decodeURIComponent` throws and the download is abandoned.
   */
  lemma BadEscapeFailsDownload(id: string, fallbackName: Option<string>, header: string, k: nat)
    requires FilenameParam(header).Some?
    requires k < |FilenameParam(header).value| && FilenameParam(header).value[k] == '%'
    requires !(k + 2 < |FilenameParam(header).value|
      && IsHexDigit(FilenameParam(header).value[k + 1]) && IsHexDigit(FilenameParam(header).value[k + 2]))
    ensures DownloadName(id, fallbackName, Some(header)) == None
  {
    BadEscapeFails(FilenameParam(header).value, k);
  }

  lemma MalformedEscapeFails(id: string, fallbackName: Option<string>)
    ensures DownloadName(id, fallbackName, Some("filename=100%")) == None
  {
    var s := "filename=100%";
    NoStar(s, 0);
    assert !LiteralAt(s, 0, Prefixes[4]) && !LiteralAt(s, 0, Prefixes[5]) && !LiteralAt(s, 0, Prefixes[6]) by {
      assert AsciiLower(s[9]) != AsciiLower(Prefixes[4][9]);
      assert AsciiLower(s[9]) != AsciiLower(Prefixes[5][9]);
      assert AsciiLower(s[9]) != AsciiLower(Prefixes[6][9]);
    }
    assert PrefixFits(s, 0, Prefixes[7]);
    assert ValueEnd(s, 9) == 13;
    assert s[9..13] == "100%";
    assert MatchAt(s, 0) == Some("100%");
    MalformedPercent();
  }

  lemma MalformedPercent()
    ensures PercentDecode("100%") == None
  {
    MalformedExamples();
  }

  /**
   * The backtracking of `(?:UTF-8'')?`: in `filename*=UTF-8''` with nothing after
   * it, the optional part is given back and the capture is the text `UTF-8''` itself.
   */
  lemma EmptyExtendedValue()
    ensures FilenameParam("filename*=UTF-8''") == Some("UTF-8''")
  {
    var s := "filename*=UTF-8''";
    assert !PrefixFits(s, 0, Prefixes[0]) && !PrefixFits(s, 0, Prefixes[1]);
    assert !PrefixFits(s, 0, Prefixes[2]) by {
      assert AsciiLower(s[10]) != AsciiLower(Prefixes[2][10]);
    }
    assert PrefixFits(s, 0, Prefixes[3]);
    assert ValueEnd(s, 10) == 17;
    assert s[10..17] == "UTF-8''";
    assert MatchAt(s, 0) == Some("UTF-8''");
  }
}
