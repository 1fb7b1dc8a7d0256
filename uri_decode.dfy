/**
 * Percent-decoding as `decodeURIComponent` performs it (section 2.1 of RFC 3986,
 * with escapes read as UTF-8 octets): a `%XY` escape stands for one octet, runs of
 * octets must form valid UTF-8 encodings of Unicode scalar values, and any
 * malformed escape makes the whole decoding fail.
 */
module UriDecode {
  import opened Wrappers

  predicate IsHexDigit(c: char)
  {
    '0' <= c <= '9' || 'a' <= c <= 'f' || 'A' <= c <= 'F'
  }

  function HexValue(c: char): (v: nat)
    requires IsHexDigit(c)
    ensures v < 16
  {
    if '0' <= c <= '9' then c as int - '0' as int
    else if 'a' <= c <= 'f' then c as int - 'a' as int + 10
    else c as int - 'A' as int + 10
  }

  /** The octet written as `%XY` at position k of s, if a well-formed escape starts there. */
  function OctetAt(s: string, k: nat): (b: Option<nat>)
    ensures b.Some? ==> b.value < 256
    ensures b.Some? <==> k + 2 < |s| && s[k] == '%' && IsHexDigit(s[k + 1]) && IsHexDigit(s[k + 2])
    ensures b.Some? ==> b.value == 16 * HexValue(s[k + 1]) + HexValue(s[k + 2])
  {
    if k + 2 < |s| && s[k] == '%' && IsHexDigit(s[k + 1]) && IsHexDigit(s[k + 2])
    then Some(16 * HexValue(s[k + 1]) + HexValue(s[k + 2]))
    else None
  }

  /**
   * The length of the UTF-8 sequence an octet leads: 1 to 4, or 0 when the octet
   * cannot start a sequence (a continuation octet 10xxxxxx, or 11111xxx).
   */
  function SequenceLength(b: nat): nat
  {
    if b < 0x80 then 1
    else if b < 0xC0 then 0
    else if b < 0xE0 then 2
    else if b < 0xF0 then 3
    else if b < 0xF8 then 4
    else 0
  }

  /** The payload bits of a lead octet of a sequence of length n. */
  function LeadPayload(b: nat, n: nat): int
  {
    if n == 2 then b - 0xC0 else if n == 3 then b - 0xE0 else b - 0xF0
  }

  /** The smallest code point a sequence of n octets may encode (shorter forms are overlong). */
  function MinCodePoint(n: nat): nat
  {
    if n == 2 then 0x80 else if n == 3 then 0x800 else 0x10000
  }

  /** A code point a sequence of n octets validly encodes: not overlong, not a surrogate, in range. */
  predicate ValidScalar(cp: int, n: nat)
  {
    MinCodePoint(n) <= cp <= 0x10FFFF && !(0xD800 <= cp <= 0xDFFF)
  }

  /** Reads m continuation escapes at the front of s, shifting each 6-bit payload into acc. */
  function Continuations(s: string, m: nat, acc: int): (r: Option<int>)
    decreases m
  {
    if m == 0 then Some(acc)
    else match OctetAt(s, 0)
      case None => None
      case Some(c) =>
        if 0x80 <= c < 0xC0 then Continuations(s[3..], m - 1, 64 * acc + (c as int - 0x80)) else None
  }

  /**
   * Decodes the escape group at the front of s (which starts with '%'): the char it
   * denotes and the number of input chars it spans, or None when it is malformed.
   */
  function DecodeGroup(s: string): (r: Option<(char, nat)>)
    requires |s| > 0 && s[0] == '%'
    ensures r.Some? ==> 3 <= r.value.1 <= |s|
  {
    match OctetAt(s, 0)
    case None => None
    case Some(b) =>
      var n := SequenceLength(b);
      if n == 1 then Some((b as char, 3))
      else if n == 0 || |s| < 3 * n then None
      else match Continuations(s[3..], n - 1, LeadPayload(b, n))
        case None => None
        case Some(cp) => if ValidScalar(cp, n) then Some((cp as char, 3 * n)) else None
  }

  /**
   * `decodeURIComponent(s)`: None where the JavaScript function throws a URIError.
   * Every char other than '%' is copied; every escape group yields one char.
   */
  function PercentDecode(s: string): (r: Option<string>)
    ensures r.Some? ==> |r.value| <= |s|
    ensures r.Some? && |s| > 0 ==> |r.value| > 0
    ensures (forall i :: 0 <= i < |s| ==> s[i] != '%') ==> r == Some(s)
    decreases |s|
  {
    if |s| == 0 then Some("")
    else if s[0] != '%' then
      assert [s[0]] + s[1..] == s;
      match PercentDecode(s[1..])
      case None => None
      case Some(t) => Some([s[0]] + t)
    else
      match DecodeGroup(s)
      case None => None
      case Some(g) =>
        match PercentDecode(s[g.1..])
        case None => None
        case Some(t) => Some([g.0] + t)
  }

  // ---------------------------------------------------------------------------
  // The inverse: percent-encoding in the style of `encodeURIComponent`, the form
  // in which a server writes the extended `filename*=UTF-8''...` parameter.
  // ---------------------------------------------------------------------------

  /** The characters `encodeURIComponent` leaves as they are. */
  predicate IsUnreserved(c: char)
  {
    'a' <= c <= 'z' || 'A' <= c <= 'Z' || '0' <= c <= '9'
    || c == '-' || c == '_' || c == '.' || c == '!' || c == '~' || c == '*' || c == '\'' || c == '(' || c == ')'
  }

  function HexDigit(v: nat): (c: char)
    requires v < 16
    ensures IsHexDigit(c) && HexValue(c) == v
  {
    "0123456789ABCDEF"[v]
  }

  function EscapeOctet(b: nat): (e: string)
    requires b < 256
    ensures |e| == 3 && e[0] == '%' && IsHexDigit(e[1]) && IsHexDigit(e[2])
  {
    ['%', HexDigit(b / 16), HexDigit(b % 16)]
  }

  /** The UTF-8 octets of a Unicode scalar value. */
  function Utf8(c: char): (o: seq<nat>)
    ensures 1 <= |o| <= 4
    ensures forall i :: 0 <= i < |o| ==> o[i] < 256
  {
    var cp := c as int;
    if cp < 0x80 then [cp]
    else if cp < 0x800 then [0xC0 + cp / 64, 0x80 + cp % 64]
    else if cp < 0x10000 then [0xE0 + cp / 4096, 0x80 + (cp / 64) % 64, 0x80 + cp % 64]
    else [0xF0 + cp / 262144, 0x80 + (cp / 4096) % 64, 0x80 + (cp / 64) % 64, 0x80 + cp % 64]
  }

  function EscapeAll(o: seq<nat>): (s: string)
    requires forall i :: 0 <= i < |o| ==> o[i] < 256
    ensures |s| == 3 * |o|
    ensures forall i :: 0 <= i < |s| ==> s[i] == '%' || IsHexDigit(s[i])
  {
    if o == [] then "" else EscapeOctet(o[0]) + EscapeAll(o[1..])
  }

  function EncodeChar(c: char): (e: string)
    ensures |e| >= 1
    ensures forall i :: 0 <= i < |e| ==> e[i] == '%' || IsHexDigit(e[i]) || IsUnreserved(e[i])
  {
    if IsUnreserved(c) then [c] else EscapeAll(Utf8(c))
  }

  function PercentEncode(s: string): (e: string)
    ensures |e| >= |s|
    ensures forall i :: 0 <= i < |e| ==> e[i] == '%' || IsHexDigit(e[i]) || IsUnreserved(e[i])
  {
    if s == [] then "" else EncodeChar(s[0]) + PercentEncode(s[1..])
  }

  // ---------------------------------------------------------------------------
  // Round trip
  // ---------------------------------------------------------------------------

  lemma OctetOfEscape(b: nat, rest: string)
    requires b < 256
    ensures OctetAt(EscapeOctet(b) + rest, 0) == Some(b)
  {
    var s := EscapeOctet(b) + rest;
    assert s[0] == '%' && s[1] == HexDigit(b / 16) && s[2] == HexDigit(b % 16);
  }

  /** The weight the continuation payloads of o add to an accumulator. */
  function Accumulate(o: seq<nat>, acc: int): int
  {
    if o == [] then acc else Accumulate(o[1..], 64 * acc + (o[0] as int - 0x80))
  }

  /** Reading the continuation escapes of `EscapeAll(o)` accumulates their payloads. */
  lemma {:induction false} ContinuationsOfEscapes(o: seq<nat>, rest: string, acc: int)
    requires forall i :: 0 <= i < |o| ==> 0x80 <= o[i] < 0xC0
    ensures Continuations(EscapeAll(o) + rest, |o|, acc) == Some(Accumulate(o, acc))
    decreases |o|
  {
    if o != [] {
      var tail := EscapeAll(o[1..]) + rest;
      assert EscapeAll(o) + rest == EscapeOctet(o[0]) + tail;
      OctetOfEscape(o[0], tail);
      assert (EscapeOctet(o[0]) + tail)[3..] == tail;
      ContinuationsOfEscapes(o[1..], rest, 64 * acc + (o[0] as int - 0x80));
    }
  }

  /** What decoding needs to know about the UTF-8 octets of a char. */
  lemma Utf8Facts(c: char)
    ensures var o := Utf8(c);
      && (|o| == 1 ==> SequenceLength(o[0]) == 1 && o[0] == c as int)
      && (|o| > 1 ==> SequenceLength(o[0]) == |o| && ValidScalar(c as int, |o|))
      && (|o| > 1 ==> Accumulate(o[1..], LeadPayload(o[0], |o|)) == c as int)
      && (forall i :: 1 <= i < |o| ==> 0x80 <= o[i] < 0xC0)
  {
    var cp := c as int;
    if cp < 0x80 {
    } else if cp < 0x800 {
      TwoOctets(cp);
    } else if cp < 0x10000 {
      ThreeOctets(cp);
    } else {
      FourOctets(cp);
    }
  }

  /** The escape group of a char decodes back to that char. */
  lemma DecodeEscapedChar(c: char, rest: string)
    ensures DecodeGroup(EscapeAll(Utf8(c)) + rest) == Some((c, |EscapeAll(Utf8(c))|))
  {
    var o := Utf8(c);
    var tail := EscapeAll(o[1..]) + rest;
    var s := EscapeAll(o) + rest;
    assert s == EscapeOctet(o[0]) + tail;
    OctetOfEscape(o[0], tail);
    assert s[3..] == tail;
    Utf8Facts(c);
    assert forall i :: 0 <= i < |o[1..]| ==> 0x80 <= o[1..][i] < 0xC0;
    ContinuationsOfEscapes(o[1..], rest, LeadPayload(o[0], |o|));
  }

  lemma TwoOctets(cp: int)
    requires 0x80 <= cp < 0x800
    ensures SequenceLength(0xC0 + cp / 64) == 2 && 0x80 <= 0x80 + cp % 64 < 0xC0
    ensures Accumulate([0x80 + cp % 64], LeadPayload(0xC0 + cp / 64, 2)) == cp
    ensures ValidScalar(cp, 2)
  {
    var rest: seq<nat> := [0x80 + cp % 64];
    assert rest[1..] == [];
  }

  lemma ThreeOctets(cp: int)
    requires 0x800 <= cp < 0x10000 && !(0xD800 <= cp <= 0xDFFF)
    ensures SequenceLength(0xE0 + cp / 4096) == 3
    ensures Accumulate([0x80 + (cp / 64) % 64, 0x80 + cp % 64], LeadPayload(0xE0 + cp / 4096, 3)) == cp
    ensures ValidScalar(cp, 3)
  {
    var q, c := cp / 64, cp % 64;
    var h, b := q / 64, q % 64;
    assert cp == 64 * q + c && q == 64 * h + b;
    assert cp == 4096 * h + (64 * b + c);
    assert h == cp / 4096;
    var o: seq<nat> := [0x80 + b, 0x80 + c];
    assert Accumulate(o[1..][1..], 64 * (64 * h + b) + c) == 64 * (64 * h + b) + c;
    assert Accumulate(o[1..], 64 * h + b) == 64 * (64 * h + b) + c;
  }

  lemma FourOctets(cp: int)
    requires 0x10000 <= cp <= 0x10FFFF
    ensures SequenceLength(0xF0 + cp / 262144) == 4
    ensures Accumulate([0x80 + (cp / 4096) % 64, 0x80 + (cp / 64) % 64, 0x80 + cp % 64], LeadPayload(0xF0 + cp / 262144, 4)) == cp
    ensures ValidScalar(cp, 4)
  {
    var q, d := cp / 64, cp % 64;
    var r, c := q / 64, q % 64;
    var h, b := r / 64, r % 64;
    assert cp == 64 * q + d && q == 64 * r + c && r == 64 * h + b;
    assert cp == 262144 * h + (4096 * b + 64 * c + d);
    assert h == cp / 262144;
    assert r == cp / 4096 by {
      assert cp == 4096 * r + (64 * c + d);
    }
    var o: seq<nat> := [0x80 + b, 0x80 + c, 0x80 + d];
    var acc := 64 * (64 * (64 * h + b) + c) + d;
    assert Accumulate(o[1..][1..][1..], acc) == acc;
    assert Accumulate(o[1..][1..], 64 * (64 * h + b) + c) == acc;
    assert Accumulate(o[1..], 64 * h + b) == acc;
  }

  lemma DecodeEncodedChar(c: char, rest: string)
    ensures PercentDecode(EncodeChar(c) + rest) == match PercentDecode(rest)
      case None => None
      case Some(t) => Some([c] + t)
  {
    var s := EncodeChar(c) + rest;
    if IsUnreserved(c) {
      assert s[0] == c && s[1..] == rest;
    } else {
      DecodeEscapedChar(c, rest);
      assert s[0] == '%';
      assert s[|EncodeChar(c)|..] == rest;
    }
  }

  /** Decoding inverts percent-encoding, for every string. */
  lemma {:induction false} DecodeInvertsEncode(s: string)
    ensures PercentDecode(PercentEncode(s)) == Some(s)
    decreases |s|
  {
    if s != [] {
      DecodeInvertsEncode(s[1..]);
      DecodeEncodedChar(s[0], PercentEncode(s[1..]));
      assert [s[0]] + s[1..] == s;
    }
  }

  lemma EncodeAcuteE()
    ensures EncodeChar('\U{e9}') == "%C3%A9"
  {
    assert Utf8('\U{e9}') == [0xC3, 0xA9];
    assert EscapeAll([0xA9]) == EscapeOctet(0xA9) + EscapeAll([]);
    assert EscapeAll([0xC3, 0xA9]) == EscapeOctet(0xC3) + EscapeAll([0xA9]);
  }

  /** A two-octet escape group: `%C3%A9` decodes to the single char U+00E9. */
  lemma DecodeTwoOctetExample()
    ensures PercentDecode("%C3%A9") == Some("\U{e9}")
  {
    EncodeAcuteE();
    assert PercentEncode("\U{e9}") == "%C3%A9";
    DecodeInvertsEncode("\U{e9}");
  }

  // ---------------------------------------------------------------------------
  // Malformed escapes
  // ---------------------------------------------------------------------------

  /** The octet read at position k of s[d..] is the one read at d + k of s. */
  lemma OctetShift(s: string, d: nat, k: nat)
    requires d <= |s|
    ensures OctetAt(s[d..], k) == OctetAt(s, d + k)
  {
  }

  /** Continuation escapes that are read successfully sit at every third position. */
  lemma {:induction false} ContinuationsAreEscapes(s: string, m: nat, acc: int)
    requires Continuations(s, m, acc).Some?
    ensures forall j :: 0 <= j < m ==> OctetAt(s, 3 * j).Some?
    decreases m
  {
    if m > 0 {
      var c := OctetAt(s, 0).value;
      ContinuationsAreEscapes(s[3..], m - 1, 64 * acc + (c as int - 0x80));
      forall j | 0 < j < m ensures OctetAt(s, 3 * j).Some? {
        OctetShift(s, 3, 3 * (j - 1));
      }
    }
  }

  /** A well-formed escape group is a whole number of `%XY` escapes. */
  lemma GroupIsEscapes(s: string)
    requires |s| > 0 && s[0] == '%' && DecodeGroup(s).Some?
    ensures DecodeGroup(s).value.1 % 3 == 0
    ensures forall j :: 0 <= j < DecodeGroup(s).value.1 / 3 ==> OctetAt(s, 3 * j).Some?
  {
    var b := OctetAt(s, 0).value;
    var n := SequenceLength(b);
    if n != 1 {
      var acc := LeadPayload(b, n);
      ContinuationsAreEscapes(s[3..], n - 1, acc);
      forall j | 0 < j < n ensures OctetAt(s, 3 * j).Some? {
        OctetShift(s, 3, 3 * (j - 1));
      }
    }
  }

  /** No '%' lies strictly inside a well-formed escape group other than at the start of one of its escapes. */
  lemma PercentInsideGroup(s: string, k: nat)
    requires |s| > 0 && s[0] == '%' && DecodeGroup(s).Some?
    requires k < DecodeGroup(s).value.1 && s[k] == '%'
    ensures OctetAt(s, k).Some?
  {
    GroupIsEscapes(s);
    var j := k / 3;
    assert OctetAt(s, 3 * j).Some?;
    assert s[3 * j + 1] != '%' && s[3 * j + 2] != '%';
  }

  /**
   * `decodeURIComponent` throws whenever some '%' of the input is not followed
   * by two hex digits, wherever that '%' is.
   */
  lemma {:induction false} BadEscapeFails(s: string, k: nat)
    requires k < |s| && s[k] == '%'
    requires !(k + 2 < |s| && IsHexDigit(s[k + 1]) && IsHexDigit(s[k + 2]))
    ensures PercentDecode(s) == None
    decreases |s|
  {
    if s[0] != '%' {
      assert s[1..][k - 1] == s[k];
      BadEscapeFails(s[1..], k - 1);
    } else if DecodeGroup(s).Some? {
      var g := DecodeGroup(s).value;
      if k < g.1 {
        PercentInsideGroup(s, k);
        assert false;
      }
      assert s[g.1..][k - g.1] == s[k];
      BadEscapeFails(s[g.1..], k - g.1);
    }
  }

  lemma DecodePlainExample()
    ensures PercentDecode("report.pdf") == Some("report.pdf")
  {
  }

  lemma DecodeEscapeExample()
    ensures PercentDecode("a%20b") == Some("a b")
  {
    assert OctetAt("%20b", 0) == Some(0x20);
    assert DecodeGroup("%20b") == Some((' ', 3));
    assert "%20b"[3..] == "b";
    assert PercentDecode("b") == Some("b");
    assert [' '] + "b" == " b";
    assert PercentDecode("%20b") == Some(" b");
    assert "a%20b"[1..] == "%20b";
    assert ['a'] + " b" == "a b";
  }

  lemma MalformedExamples()
    ensures PercentDecode("100%") == None
    ensures PercentDecode("%zz") == None
    ensures PercentDecode("%C3") == None
    ensures PercentDecode("%C0%80") == None
  {
    assert OctetAt("%", 0) == None;
    assert "100%"[1..] == "00%" && "00%"[1..] == "0%" && "0%"[1..] == "%";
    assert OctetAt("%zz", 0) == None;
    assert OctetAt("%C3", 0) == Some(0xC3);
    assert OctetAt("%C0%80", 0) == Some(0xC0);
    assert OctetAt("%80", 0) == Some(0x80);
    assert "%C0%80"[3..] == "%80";
  }
}
