/** The pattern filter of the sanitization service: the profile named by the
    caller decides which characters of the text survive. */
module Patterns {
  import opened JavaText
  import opened Sequences

  /** The profiles the filter recognises; every other name passes text through. */
  datatype Profile = Alnum | NumericDot | PassThrough

  /** The profile named by `name`, compared after lower-casing: "alnum",
      "numeric+dot", and anything else ("any", "" and unknown names included)
      passes through. */
  function ParseProfile(name: string): (p: Profile)
    ensures p == Alnum <==> ToLower(name) == "alnum"
    ensures p == NumericDot <==> ToLower(name) == "numeric+dot"
  {
    var lowered := ToLower(name);
    if lowered == "alnum" then Alnum
    else if lowered == "numeric+dot" then NumericDot
    else PassThrough
  }

  /** The characters a profile keeps: [a-zA-Z0-9] for alnum, [0-9.] for
      numeric+dot, all of them otherwise. */
  predicate Admits(p: Profile, c: char)
  {
    match p
    case Alnum => IsAsciiAlnum(c)
    case NumericDot => IsDigit(c) || c == '.'
    case PassThrough => true
  }

  /** The text with every character the profile does not admit deleted: the
      replaceAll of the complement of the profile's class with "". */
  function Keep(s: string, p: Profile): string
  {
    Filter(s, c => Admits(p, c))
  }

  /** applyPattern: the text filtered by the profile its name denotes. The result
      is the subsequence of the input made of exactly the characters the profile
      admits, and under "any", "" or an unknown name it is the input itself. */
  function ApplyPattern(input: string, profile: string): (r: string)
    ensures IsSubsequence(r, input)
    ensures forall i :: 0 <= i < |r| ==> Admits(ParseProfile(profile), r[i])
    ensures forall c :: multiset(r)[c] == if Admits(ParseProfile(profile), c) then multiset(input)[c] else 0
    ensures ParseProfile(profile) == PassThrough ==> r == input
  {
    var p := ParseProfile(profile);
    FilterOrdered(input, c => Admits(p, c));
    FilterKept(input, c => Admits(p, c));
    FilterCounts(input, c => Admits(p, c));
    if p == PassThrough then FilterAllKept(input, c => Admits(p, c)); input
    else Keep(input, p)
  }

  /** The profile name is matched in any letter case: "ALNUM" is "alnum". */
  lemma ProfileIgnoresCase(name: string)
    ensures ParseProfile(ToUpper(name)) == ParseProfile(name)
  {
    var u := ToUpper(name);
    assert ToLower(u) == ToLower(name);
  }

  lemma ParseKnownProfiles()
    ensures ParseProfile("alnum") == Alnum
    ensures ParseProfile("numeric+dot") == NumericDot
    ensures ParseProfile("any") == PassThrough
  {
    assert ToLower("any") == "any";
    assert ToLower("alnum") == "alnum";
    assert ToLower("numeric+dot") == "numeric+dot";
  }

  /** Under numeric+dot the colon before the port of an address is deleted, not
      replaced: "192.168.0.1:8080" becomes "192.168.0.18080". */
  lemma NumericDotExample()
    ensures ApplyPattern("192.168.0.1:8080", "numeric+dot") == "192.168.0.18080"
  {
    ParseKnownProfiles();
    NumericDotKeep();
  }

  lemma NumericDotKeep()
    ensures Keep("192.168.0.1:8080", NumericDot) == "192.168.0.18080"
  {
    assert "192.168.0.1:8080" == "192.168.0.1" + [':'] + "8080";
    KeepDrops("192.168.0.1", ':', "8080", NumericDot);
    KeepAdmitted("8080", NumericDot);
    assert "192.168.0.1" + "8080" == "192.168.0.18080";
  }

  /** Under alnum the blanks of "DROP TABLE users" are dropped. */
  lemma AlnumExample()
    ensures ApplyPattern("DROP TABLE users", "alnum") == "DROPTABLEusers"
  {
    ParseKnownProfiles();
    AlnumKeep();
  }

  lemma AlnumKeep()
    ensures Keep("DROP TABLE users", Alnum) == "DROPTABLEusers"
  {
    assert "DROP TABLE users" == "DROP" + [' '] + ("TABLE" + [' '] + "users");
    KeepDrops("DROP", ' ', "TABLE" + [' '] + "users", Alnum);
    KeepDrops("TABLE", ' ', "users", Alnum);
    KeepAdmitted("users", Alnum);
    assert "DROP" + ("TABLE" + "users") == "DROPTABLEusers";
  }

  /** Admitted characters are kept as they are. */
  lemma KeepAdmitted(s: string, p: Profile)
    requires forall i :: 0 <= i < |s| ==> Admits(p, s[i])
    ensures Keep(s, p) == s
  {
    FilterAllKept(s, c => Admits(p, c));
  }

  /** A character the profile refuses, after a run it admits, is deleted and
      the rest is filtered on. */
  lemma KeepDrops(a: string, x: char, b: string, p: Profile)
    requires forall i :: 0 <= i < |a| ==> Admits(p, a[i])
    requires !Admits(p, x)
    ensures Keep(a + [x] + b, p) == a + Keep(b, p)
  {
    var keep := c => Admits(p, c);
    FilterAppend(a + [x], b, keep);
    FilterAppend(a, [x], keep);
    FilterAllKept(a, keep);
    assert Filter([x], keep) == Filter([], keep);
  }
}
