/** The java.lang.String and java.lang.Character operations the sanitizer relies on,
    over strings as sequences of characters. Case conversion is ASCII case folding. */
module JavaText {

  // ---------------------------------------------------------------------------
  // Character classes
  // ---------------------------------------------------------------------------

  predicate IsAsciiUpper(c: char) { 'A' <= c <= 'Z' }

  predicate IsAsciiLower(c: char) { 'a' <= c <= 'z' }

  predicate IsDigit(c: char) { '0' <= c <= '9' }

  /** The regular-expression class [a-zA-Z0-9]. */
  predicate IsAsciiAlnum(c: char) { IsAsciiUpper(c) || IsAsciiLower(c) || IsDigit(c) }

  /** Character.isLetterOrDigit. Java consults the Unicode tables; this model
      answers for the ASCII range only, so a non-ASCII letter such as 'é' is
      a letter for Java and not for the model. */
  predicate IsLetterOrDigit(c: char) { IsAsciiAlnum(c) }

  /** The characters String.trim removes: every code point up to U+0020. */
  predicate IsTrimmable(c: char) { c <= ' ' }

  // ---------------------------------------------------------------------------
  // Case conversion
  // ---------------------------------------------------------------------------

  function LowerChar(c: char): (r: char)
    ensures !IsAsciiUpper(r)
    ensures IsAsciiUpper(c) ==> IsAsciiLower(r) && r as int == c as int + 32
    ensures !IsAsciiUpper(c) ==> r == c
  {
    if IsAsciiUpper(c) then (c as int + 32) as char else c
  }

  function UpperChar(c: char): (r: char)
    ensures !IsAsciiLower(r)
    ensures IsAsciiLower(c) ==> IsAsciiUpper(r) && r as int == c as int - 32
    ensures !IsAsciiLower(c) ==> r == c
  {
    if IsAsciiLower(c) then (c as int - 32) as char else c
  }

  /** String.toLowerCase. */
  function ToLower(s: string): (r: string)
    ensures |r| == |s|
    ensures forall i :: 0 <= i < |s| ==> r[i] == LowerChar(s[i])
  {
    seq(|s|, i requires 0 <= i < |s| => LowerChar(s[i]))
  }

  /** String.toUpperCase. */
  function ToUpper(s: string): (r: string)
    ensures |r| == |s|
    ensures forall i :: 0 <= i < |s| ==> r[i] == UpperChar(s[i])
  {
    seq(|s|, i requires 0 <= i < |s| => UpperChar(s[i]))
  }

  predicate HasNoUpper(s: string) { forall i :: 0 <= i < |s| ==> !IsAsciiUpper(s[i]) }

  /** Lowering leaves no upper-case letter, and lowering twice is lowering once. */
  lemma ToLowerFolds(s: string)
    ensures HasNoUpper(ToLower(s))
    ensures ToLower(ToLower(s)) == ToLower(s)
  {
  }

  // ---------------------------------------------------------------------------
  // String.trim
  // ---------------------------------------------------------------------------

  /** The number of trimmable characters at the front of s. */
  function LeadingTrimmable(s: string): (n: nat)
    ensures n <= |s|
    ensures forall k :: 0 <= k < n ==> IsTrimmable(s[k])
    ensures n < |s| ==> !IsTrimmable(s[n])
  {
    if s != [] && IsTrimmable(s[0]) then
      var n := 1 + LeadingTrimmable(s[1..]);
      assert forall k :: 1 <= k < n ==> s[k] == s[1..][k - 1];
      n
    else 0
  }

  /** The number of trimmable characters at the end of s. */
  function TrailingTrimmable(s: string): (n: nat)
    ensures n <= |s|
    ensures forall k :: |s| - n <= k < |s| ==> IsTrimmable(s[k])
    ensures n < |s| ==> !IsTrimmable(s[|s| - 1 - n])
  {
    if s != [] && IsTrimmable(s[|s| - 1]) then
      var n := 1 + TrailingTrimmable(s[..|s| - 1]);
      assert forall k :: |s| - n <= k < |s| - 1 ==> s[k] == s[..|s| - 1][k];
      n
    else 0
  }

  /** String.trim: s without its leading and trailing characters up to U+0020.
      The result is the infix s[i..j] where everything before i and from j on
      is trimmable, and it neither starts nor ends with a trimmable character. */
  function Trim(s: string): (r: string)
    ensures r == s[LeadingTrimmable(s)..|s| - TrailingTrimmable(s[LeadingTrimmable(s)..])]
    ensures r == [] || (!IsTrimmable(r[0]) && !IsTrimmable(r[|r| - 1]))
  {
    var t := s[LeadingTrimmable(s)..];
    t[..|t| - TrailingTrimmable(t)]
  }

  // ---------------------------------------------------------------------------
  // String.contains
  // ---------------------------------------------------------------------------

  /** String.contains: term occurs in text at some position. */
  predicate Contains(text: string, term: string)
    decreases |text|
  {
    term <= text || (text != [] && Contains(text[1..], term))
  }

  /** term occupies text from position i on. */
  predicate OccursAt(text: string, term: string, i: nat)
  {
    i + |term| <= |text| && text[i..i + |term|] == term
  }

  /** Contains agrees with "term occurs at some position of text", in both directions. */
  lemma {:induction false} ContainsIffOccurs(text: string, term: string)
    ensures Contains(text, term) <==> exists i: nat :: OccursAt(text, term, i)
    decreases |text|
  {
    if Contains(text, term) {
      if term <= text {
        assert OccursAt(text, term, 0);
      } else {
        ContainsIffOccurs(text[1..], term);
        var i: nat :| OccursAt(text[1..], term, i);
        assert text[i + 1..i + 1 + |term|] == text[1..][i..i + |term|];
        assert OccursAt(text, term, i + 1);
      }
    }
    if exists i: nat :: OccursAt(text, term, i) {
      var i: nat :| OccursAt(text, term, i);
      ContainsAt(text, term, i);
    }
  }

  lemma {:induction false} ContainsAt(text: string, term: string, i: nat)
    requires OccursAt(text, term, i)
    ensures Contains(text, term)
    decreases i
  {
    if i == 0 {
      assert term <= text;
    } else {
      assert text[1..][i - 1..i - 1 + |term|] == text[i..i + |term|];
      ContainsAt(text[1..], term, i - 1);
    }
  }

  /** The empty string is contained in every string. */
  lemma ContainsEmpty(text: string)
    ensures Contains(text, [])
  {
  }

  // ---------------------------------------------------------------------------
  // String.split("\\.")
  // ---------------------------------------------------------------------------

  /** All pieces of s between '.' separators, empty pieces included:
      a string with n dots has n + 1 pieces. */
  function SplitDots(s: string): (r: seq<string>)
    ensures |r| >= 1
    decreases |s|
  {
    if s == [] then [[]]
    else
      var rest := SplitDots(s[1..]);
      if s[0] == '.' then [[]] + rest
      else [[s[0]] + rest[0]] + rest[1..]
  }

  /** The pieces put back together with '.' between them. */
  function JoinDots(pieces: seq<string>): string
    decreases |pieces|
  {
    if pieces == [] then []
    else if |pieces| == 1 then pieces[0]
    else pieces[0] + ['.'] + JoinDots(pieces[1..])
  }

  /** Splitting loses nothing: the pieces hold no dot, joining them gives s back,
      and s has a dot exactly when it has more than one piece. */
  lemma {:induction false} SplitDotsJoin(s: string)
    ensures JoinDots(SplitDots(s)) == s
    ensures forall i :: 0 <= i < |SplitDots(s)| ==> '.' !in SplitDots(s)[i]
    ensures ('.' in s) <==> |SplitDots(s)| >= 2
    decreases |s|
  {
    if s != [] {
      var rest := SplitDots(s[1..]);
      SplitDotsJoin(s[1..]);
      assert s == [s[0]] + s[1..];
      if s[0] == '.' {
        assert SplitDots(s)[1..] == rest;
      } else {
        var r := SplitDots(s);
        assert r[1..] == rest[1..];
        assert forall i :: 1 <= i < |r| ==> r[i] == rest[i];
        if |rest| >= 2 {
          assert JoinDots(rest) == rest[0] + ['.'] + JoinDots(rest[1..]);
        }
      }
    }
  }

  /** The first piece is the text before the first dot (all of s when it has
      none). */
  lemma SplitDotsFirst(s: string)
    ensures var first := SplitDots(s)[0];
            '.' !in first && |first| <= |s| && s[..|first|] == first &&
            (|first| < |s| ==> s[|first|] == '.')
  {
    var pieces := SplitDots(s);
    SplitDotsJoin(s);
    if |pieces| >= 2 {
      assert s == pieces[0] + ['.'] + JoinDots(pieces[1..]);
      assert s[..|pieces[0]|] == pieces[0];
    } else {
      assert s == pieces[0];
    }
  }

  /** Drops the empty strings at the end of pieces, as String.split does. */
  function DropTrailingEmpty(pieces: seq<string>): (r: seq<string>)
    ensures |r| <= |pieces| && r == pieces[..|r|]
    ensures forall i :: |r| <= i < |pieces| ==> pieces[i] == []
    ensures r == [] || r[|r| - 1] != []
  {
    if pieces != [] && pieces[|pieces| - 1] == [] then
      DropTrailingEmpty(pieces[..|pieces| - 1])
    else pieces
  }

  /** key.split("\\.") in Java: a string without '.' is returned whole (even when
      empty); otherwise it is cut at every '.' and trailing empty pieces dropped. */
  function JavaSplit(s: string): (r: seq<string>)
    ensures forall i :: 0 <= i < |r| ==> '.' !in r[i]
    ensures '.' in s ==> r == [] || r[|r| - 1] != []
    ensures |r| <= |SplitDots(s)| && r == SplitDots(s)[..|r|]
  {
    SplitDotsJoin(s);
    if '.' !in s then
      SplitDotsOne(s);
      [s]
    else DropTrailingEmpty(SplitDots(s))
  }

  lemma SplitDotsOne(s: string)
    requires '.' !in s
    ensures SplitDots(s) == [s]
  {
    SplitDotsJoin(s);
  }
}
