/** The encoder of the sanitization service: every character that is not a
    letter or digit is rewritten according to the mode named by the caller. */
module Encoding {
  import opened Wrappers
  import opened JavaText
  import opened Format

  /** The modes the encoder recognises; every other name copies characters. */
  datatype Mode = Ascii | Unicode | Html | NoEncoding

  /** The mode named by `name`, compared after upper-casing: "ASCII", "UNICODE",
      "HTML", and anything else ("NONE", "" and unknown names included) copies. */
  function ParseMode(name: string): (m: Mode)
    ensures m == Ascii <==> ToUpper(name) == "ASCII"
    ensures m == Unicode <==> ToUpper(name) == "UNICODE"
    ensures m == Html <==> ToUpper(name) == "HTML"
  {
    var upper := ToUpper(name);
    if upper == "ASCII" then Ascii
    else if upper == "UNICODE" then Unicode
    else if upper == "HTML" then Html
    else NoEncoding
  }

  /** The numbers that are code points of a character. */
  predicate IsCharCode(n: int)
  {
    0 <= n < 0xD800 || 0xE000 <= n < 0x11_0000
  }

  // ---------------------------------------------------------------------------
  // HTML entities
  // ---------------------------------------------------------------------------

  /** encodeHtmlEntity: the named entity of < > & " and ', the decimal numeric
      reference of any other character. The entity starts with '&', ends with
      its only ';', and reads back as the character. */
  function EncodeHtmlEntity(c: char): (r: string)
    ensures |r| >= 4 && r[0] == '&' && r[|r| - 1] == ';' && ';' !in r[..|r| - 1]
    ensures DecodeEntity(r) == Some(c)
  {
    match c
    case '<' => "&lt;"
    case '>' => "&gt;"
    case '&' => "&amp;"
    case '"' => "&quot;"
    case '\'' => "&#x27;"
    case _ =>
      NumericReference(c);
      "&#" + Decimal(c as int) + ";"
  }

  /** The decimal reference of a character reads back as the character. */
  lemma NumericReference(c: char)
    ensures var r := "&#" + Decimal(c as int) + ";";
            |r| >= 4 && r[0] == '&' && r[|r| - 1] == ';' && ';' !in r[..|r| - 1] &&
            DecodeEntity(r) == Some(c)
  {
    var digits := Decimal(c as int);
    var r := "&#" + digits + ";";
    assert r[..|r| - 1] == "&#" + digits;
    assert ';' !in r[..|r| - 1] by {
      assert forall i :: 2 <= i < |r| - 1 ==> r[i] == digits[i - 2];
    }
    NotNamedEntity(r);
    NumericReferenceValue(c, r);
  }

  /** A string starting with "&#" and a decimal digit is none of the named
      entities. */
  lemma NotNamedEntity(r: string)
    requires |r| >= 3 && r[..2] == "&#" && '0' <= r[2] <= '9'
    ensures r != "&lt;" && r != "&gt;" && r != "&amp;" && r != "&quot;" && r != "&#x27;"
  {
    assert r[1] == '#';
    assert "&#x27;"[2] == 'x';
  }

  lemma NumericReferenceValue(c: char, r: string)
    requires r == "&#" + Decimal(c as int) + ";"
    ensures |r| >= 4 && r[..2] == "&#" && r[|r| - 1] == ';'
    ensures AllDecimalDigits(r[2..|r| - 1]) && DecimalValue(r[2..|r| - 1]) == c as int
    ensures IsCharCode(c as int)
    ensures '0' <= r[2] <= '9'
  {
    var digits := Decimal(c as int);
    DecimalRoundTrip(c as int);
    assert r[2..|r| - 1] == digits;
    assert r[2] == digits[0];
  }

  /** Reference decoder of one entity: the character whose entity e is. */
  function DecodeEntity(e: string): Option<char>
  {
    if e == "&lt;" then Some('<')
    else if e == "&gt;" then Some('>')
    else if e == "&amp;" then Some('&')
    else if e == "&quot;" then Some('"')
    else if e == "&#x27;" then Some('\'')
    else if |e| >= 4 && e[..2] == "&#" && e[|e| - 1] == ';' && AllDecimalDigits(e[2..|e| - 1]) &&
            IsCharCode(DecimalValue(e[2..|e| - 1]))
    then Some(DecimalValue(e[2..|e| - 1]) as char)
    else None
  }

  // ---------------------------------------------------------------------------
  // The encoder
  // ---------------------------------------------------------------------------

  /** What one character becomes: itself when it is a letter or digit; otherwise
      \x with at least two hex digits (ASCII), \u with at least four (UNICODE),
      its HTML entity (HTML), or itself (any other mode). */
  function EncodeChar(c: char, m: Mode): (r: string)
    ensures |r| >= 1
    ensures !IsLetterOrDigit(c) && m != NoEncoding ==> |r| >= 4 && (r[0] == '\\' || r[0] == '&')
  {
    if IsLetterOrDigit(c) then [c]
    else
      match m
      case Ascii => "\\x" + HexPadded(c as int, 2)
      case Unicode => "\\u" + HexPadded(c as int, 4)
      case Html => EncodeHtmlEntity(c)
      case NoEncoding => [c]
  }

  /** The encoding of a text: the encodings of its characters, in order. */
  function Encode(s: string, m: Mode): (r: string)
    ensures |r| >= |s|
    decreases |s|
  {
    if s == [] then [] else EncodeChar(s[0], m) + Encode(s[1..], m)
  }

  /** Encoding works character by character: the encoding of a concatenation is
      the concatenation of the encodings. */
  lemma {:induction false} EncodeAppend(a: string, b: string, m: Mode)
    ensures Encode(a + b, m) == Encode(a, m) + Encode(b, m)
    decreases |a|
  {
    if a != [] {
      assert (a + b)[1..] == a[1..] + b;
      EncodeAppend(a[1..], b, m);
    } else {
      assert a + b == b;
    }
  }

  /** One more character of the input adds its own encoding. */
  lemma EncodePrefix(s: string, i: nat, m: Mode)
    requires i < |s|
    ensures Encode(s[..i + 1], m) == Encode(s[..i], m) + EncodeChar(s[i], m)
  {
    assert s[..i + 1] == s[..i] + [s[i]];
    EncodeAppend(s[..i], [s[i]], m);
    assert Encode([s[i]], m) == EncodeChar(s[i], m) + Encode([], m);
  }

  /** Every character yields at least one, so the encoding is never shorter than
      the text; a text of letters and digits, and any text under a copying mode,
      is its own encoding. */
  lemma {:induction false} EncodeBounds(s: string, m: Mode)
    ensures |Encode(s, m)| >= |s|
    ensures (m == NoEncoding || forall i :: 0 <= i < |s| ==> IsLetterOrDigit(s[i])) ==> Encode(s, m) == s
    decreases |s|
  {
    if s != [] {
      EncodeBounds(s[1..], m);
      assert [s[0]] + s[1..] == s;
    }
  }

  lemma HexWidths(n: nat)
    ensures |Hex(n)| <= 2 <==> n < 0x100
    ensures |Hex(n)| <= 4 <==> n < 0x1_0000
  {
    HexRoundTrip(n);
    assert Pow16(2) == 0x100;
    assert Pow16(4) == 0x1_0000;
  }

  /** Under UNICODE a character of the Java range that is not a letter or digit
      becomes \u and exactly four upper-case hex digits of its code. */
  lemma UnicodeEscape(c: char)
    requires !IsLetterOrDigit(c) && c as int < 0x1_0000
    ensures var r := EncodeChar(c, Unicode);
            |r| == 6 && r[..2] == "\\u" && AllHexDigits(r[2..]) && HexValue(r[2..]) == c as int
  {
    HexWidths(c as int);
    var r := EncodeChar(c, Unicode);
    assert r[2..] == HexPadded(c as int, 4);
  }

  /** Under ASCII a character that is not a letter or digit becomes \x and the
      hex digits of its code: exactly two when the code is below 0x100, more
      above (the %02X width is a minimum). */
  lemma AsciiEscape(c: char)
    requires !IsLetterOrDigit(c)
    ensures var r := EncodeChar(c, Ascii);
            |r| >= 4 && r[..2] == "\\x" && AllHexDigits(r[2..]) && HexValue(r[2..]) == c as int &&
            (|r| == 4 <==> c as int < 0x100)
  {
    HexWidths(c as int);
    var r := EncodeChar(c, Ascii);
    assert r[2..] == HexPadded(c as int, 2);
  }

  /** The encoder: a StringBuilder receiving the encoding of each character of
      the input in turn. */
  method ApplyEncoding(input: string, mode: string) returns (r: string)
    ensures r == Encode(input, ParseMode(mode))
    ensures |r| >= |input|
    ensures ParseMode(mode) == NoEncoding ==> r == input
  {
    var m := ParseMode(mode);
    var sb := [];
    for i := 0 to |input|
      invariant sb == Encode(input[..i], m)
    {
      sb := sb + EncodeChar(input[i], m);
      EncodePrefix(input, i, m);
    }
    assert input[..|input|] == input;
    r := sb;
    EncodeBounds(input, m);
  }

  // ---------------------------------------------------------------------------
  // Reference decoders and round trips
  // ---------------------------------------------------------------------------

  /** The position of the first x in s, if any. */
  function IndexOf(s: string, x: char): (r: Option<nat>)
    ensures r.Some? ==> r.value < |s| && s[r.value] == x && x !in s[..r.value]
    ensures r.None? ==> x !in s
    decreases |s|
  {
    if s == [] then None
    else if s[0] == x then Some(0)
    else
      match IndexOf(s[1..], x)
      case None => None
      case Some(k) =>
        assert s[..k + 1] == [s[0]] + s[1..][..k];
        Some(k + 1)
  }

  /** Reads encoded HTML back: '&' up to the next ';' is an entity, any other
      character stands for itself. */
  function DecodeHtml(s: string): Option<string>
    decreases |s|
  {
    if s == [] then Some([])
    else if s[0] != '&' then
      match DecodeHtml(s[1..])
      case None => None
      case Some(rest) => Some([s[0]] + rest)
    else
      match IndexOf(s, ';')
      case None => None
      case Some(k) =>
        match DecodeEntity(s[..k + 1])
        case None => None
        case Some(c) =>
          match DecodeHtml(s[k + 1..])
          case None => None
          case Some(rest) => Some([c] + rest)
  }

  lemma EntityEnds(e: string, x: string)
    requires |e| >= 1 && e[|e| - 1] == ';' && ';' !in e[..|e| - 1]
    ensures IndexOf(e + x, ';') == Some(|e| - 1)
  {
    var s := e + x;
    assert s[|e| - 1] == ';';
    assert s[..|e| - 1] == e[..|e| - 1];
  }

  /** HTML encoding loses nothing: decoding the entities gives the text back. */
  lemma {:induction false} HtmlRoundTrip(s: string)
    ensures DecodeHtml(Encode(s, Html)) == Some(s)
    decreases |s|
  {
    if s != [] {
      var c := s[0];
      var e, rest := EncodeChar(c, Html), Encode(s[1..], Html);
      HtmlRoundTrip(s[1..]);
      var t := e + rest;
      assert Encode(s, Html) == t;
      if IsLetterOrDigit(c) {
        assert t[0] == c && t[1..] == rest;
      } else {
        EntityEnds(e, rest);
        assert t[..|e|] == e && t[|e|..] == rest;
      }
      assert [c] + s[1..] == s;
    }
  }

  /** Reads encoded UNICODE text back: \u and four hex digits is the character
      with that code, any other character stands for itself. */
  function DecodeUnicode(s: string): Option<string>
    decreases |s|
  {
    if s == [] then Some([])
    else if s[0] != '\\' then
      match DecodeUnicode(s[1..])
      case None => None
      case Some(rest) => Some([s[0]] + rest)
    else if |s| >= 6 && s[1] == 'u' && AllHexDigits(s[2..6]) && IsCharCode(HexValue(s[2..6])) then
      match DecodeUnicode(s[6..])
      case None => None
      case Some(rest) => Some([HexValue(s[2..6]) as char] + rest)
    else None
  }

  /** A text whose characters fit a Java char (UTF-16 code unit). */
  predicate IsJavaText(s: string)
  {
    forall i :: 0 <= i < |s| ==> s[i] as int < 0x1_0000
  }

  /** UNICODE encoding of Java text loses nothing: decoding the escapes gives the
      text back. */
  lemma {:induction false} UnicodeRoundTrip(s: string)
    requires IsJavaText(s)
    ensures DecodeUnicode(Encode(s, Unicode)) == Some(s)
    decreases |s|
  {
    if s != [] {
      var c := s[0];
      var e, rest := EncodeChar(c, Unicode), Encode(s[1..], Unicode);
      UnicodeRoundTrip(s[1..]);
      var t := e + rest;
      assert Encode(s, Unicode) == t;
      if IsLetterOrDigit(c) {
        assert t[0] == c && t[1..] == rest;
      } else {
        UnicodeEscape(c);
        UnicodeEscapeDecodes(c, e, rest);
      }
      assert [c] + s[1..] == s;
    }
  }

  lemma UnicodeEscapeDecodes(c: char, e: string, rest: string)
    requires |e| == 6 && e[..2] == "\\u" && AllHexDigits(e[2..]) && HexValue(e[2..]) == c as int
    ensures DecodeUnicode(e + rest) ==
            match DecodeUnicode(rest)
            case None => None
            case Some(r) => Some([c] + r)
  {
    var t := e + rest;
    assert e[0] == "\\u"[0] == '\\' && e[1] == "\\u"[1] == 'u';
    assert t[..6] == e && t[6..] == rest;
    assert t[2..6] == e[2..];
    assert t[0] == '\\' && t[1] == 'u';
  }

  // ---------------------------------------------------------------------------
  // Consequences shown on examples
  // ---------------------------------------------------------------------------

  /** ASCII escapes are not fixed-width above 0xFF, so two texts can share an
      encoding. U+0300 (a combining grave accent) followed by '0', and U+3000 (the
      ideographic space), are neither letters nor digits, for Java as for this
      model, and both give \x3000. */
  lemma AsciiAmbiguousAbove0xFF()
    ensures Encode(['\U{0300}', '0'], Ascii) == Encode(['\U{3000}'], Ascii) == "\\x3000"
  {
    assert Hex(0x300) == Hex(0x30) + ['0'];
    assert Hex(0x30) == Hex(3) + ['0'];
    assert Hex(0x3000) == Hex(0x300) + ['0'];
    assert Encode(['0'], Ascii) == "0";
  }

  lemma ParseKnownModes()
    ensures ParseMode("HTML") == Html
    ensures ParseMode("NONE") == NoEncoding
  {
    assert ToUpper("HTML") == "HTML";
    assert ToUpper("NONE") == "NONE";
  }

  /** HTML encoding is not idempotent: "&" becomes "&amp;", and encoding that
      again rewrites both its '&' and its ';', giving "&amp;amp&#59;". */
  lemma HtmlNotIdempotent()
    ensures Encode("&", Html) == "&amp;"
    ensures Encode("&amp;", Html) == "&amp;amp&#59;"
  {
    OneChar('&', Html);
    assert "&amp;" == ['&'] + "amp" + [';'];
    EncodeBetween('&', "amp", ';', Html);
    SemicolonEntity();
    assert "&amp;" + "amp" + "&#59;" == "&amp;amp&#59;";
  }

  /** The decimal reference of ';' (code 59). */
  lemma SemicolonEntity()
    ensures EncodeChar(';', Html) == "&#59;"
  {
    assert Decimal(5) == "5";
    assert Decimal(59) == Decimal(5) + ['9'];
    assert ';' as int == 59;
  }

  /** Under HTML, "<script>" becomes "&lt;script&gt;". */
  lemma ScriptTagExample()
    ensures Encode("<script>", Html) == "&lt;script&gt;"
  {
    assert "<script>" == ['<'] + "script" + ['>'];
    EncodeBetween('<', "script", '>', Html);
    assert "&lt;" + "script" + "&gt;" == "&lt;script&gt;";
  }

  lemma OneChar(c: char, m: Mode)
    ensures Encode([c], m) == EncodeChar(c, m)
  {
    assert Encode([c], m) == EncodeChar(c, m) + Encode([], m);
  }

  /** A run of letters and digits between two characters is copied, and only
      the two characters around it are encoded. */
  lemma EncodeBetween(a: char, w: string, b: char, m: Mode)
    requires forall i :: 0 <= i < |w| ==> IsLetterOrDigit(w[i])
    ensures Encode([a] + w + [b], m) == EncodeChar(a, m) + w + EncodeChar(b, m)
  {
    EncodeAppend([a] + w, [b], m);
    EncodeAppend([a], w, m);
    EncodeBounds(w, m);
    OneChar(a, m);
    OneChar(b, m);
  }
}
