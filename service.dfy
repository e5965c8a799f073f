/** The sanitization service: detection of blacklisted terms on the raw text,
    then the pattern filter, then the encoder, collected in a result record. */
module Service {
  import opened Wrappers
  import opened JavaText
  import opened Blacklist
  import opened Patterns
  import opened Encoding
  import opened Results

  /** The profile and encoding the HTTP front end passes when a request names
      none; an absent input is passed as the empty text. */
  const DefaultInput: string := ""
  const DefaultProfile: string := "any"
  const DefaultEncoding: string := "NONE"

  /** What sanitize records for an input (None standing for null) against a
      store: the input as received (null read as ""), the filtered and encoded
      text, hostility exactly when some category matched, the matches, and the
      mode and profile names as given. */
  function Sanitized(store: Store, input: Option<string>, profile: string, mode: string): Fields
  {
    var text := input.GetOr(DefaultInput);
    var matches := Matches(store, ToLower(text));
    Fields(text, Encode(ApplyPattern(text, profile), ParseMode(mode)), matches != map[], matches, mode, profile)
  }

  class SanitizationService {
    const blacklist: BlacklistLoader

    /** A service over a freshly loaded blacklist; `source` is the content of the
        blacklist resource, None when it is missing. */
    constructor (source: Option<seq<Entry>>)
      ensures fresh(blacklist) && blacklist.Valid() && blacklist.Source == source
    {
      blacklist := new BlacklistLoader(source);
    }

    /** sanitize: matches are looked up on the raw input; the cleaned value is
        the input filtered by the profile and then encoded by the mode. */
    method Sanitize(input: Option<string>, patternProfile: string, encodingMode: string)
      returns (r: SanitizationResult)
      ensures fresh(r)
      ensures r.Snapshot() == Sanitized(blacklist.blacklist, input, patternProfile, encodingMode)
    {
      var text := input.GetOr(DefaultInput);
      var matches := blacklist.FindMatches(text);
      var hostile := matches != map[];
      var cleaned := ApplyPattern(text, patternProfile);
      var encoded := ApplyEncoding(cleaned, encodingMode);
      r := new SanitizationResult(text, encoded, hostile, matches, encodingMode, patternProfile);
    }
  }

  // ---------------------------------------------------------------------------
  // Properties of a sanitization
  // ---------------------------------------------------------------------------

  /** The result is hostile exactly when some stored term occurs in the
      lower-cased input; the profile and the mode play no part in it. */
  lemma HostileIffTermOccurs(store: Store, input: Option<string>, profile: string, mode: string)
    ensures Sanitized(store, input, profile, mode).hostility <==>
            exists c, i :: c in store && 0 <= i < |store[c]| &&
                           Contains(ToLower(input.GetOr(DefaultInput)), store[c][i])
  {
    MatchesEmptyIff(store, ToLower(input.GetOr(DefaultInput)));
  }

  /** A null input is sanitized as the empty text: nothing to clean, and it is
      hostile only when the store holds an empty term. */
  lemma NullInput(store: Store, profile: string, mode: string)
    ensures Sanitized(store, None, profile, mode).originalValue == ""
    ensures Sanitized(store, None, profile, mode).cleanedValue == ""
    ensures Sanitized(store, None, profile, mode).hostility <==>
            exists c :: c in store && [] in store[c]
  {
    HostileIffTermOccurs(store, None, profile, mode);
    assert ToLower("") == "";
    forall t: string
      ensures Contains("", t) <==> t == []
    {
    }
    if exists c :: c in store && [] in store[c] {
      var c :| c in store && [] in store[c];
      var i :| 0 <= i < |store[c]| && store[c][i] == [];
      assert Contains("", store[c][i]);
    }
  }

  /** With the front end's defaults ("any", "NONE") the cleaned value is the
      input itself. */
  lemma DefaultsPassThrough(store: Store, text: string)
    ensures Sanitized(store, Some(text), DefaultProfile, DefaultEncoding).cleanedValue == text
  {
    ParseKnownProfiles();
    ParseKnownModes();
    EncodeBounds(text, NoEncoding);
  }

  /** Under HTML the cleaned value decodes back to the filtered input. */
  lemma HtmlCleanedDecodes(store: Store, input: Option<string>, profile: string, mode: string)
    requires ParseMode(mode) == Html
    ensures DecodeHtml(Sanitized(store, input, profile, mode).cleanedValue) ==
            Some(ApplyPattern(input.GetOr(DefaultInput), profile))
  {
    HtmlRoundTrip(ApplyPattern(input.GetOr(DefaultInput), profile));
  }

  /** Under UNICODE the cleaned value of Java text decodes back to the filtered
      input. */
  lemma UnicodeCleanedDecodes(store: Store, text: string, profile: string, mode: string)
    requires ParseMode(mode) == Unicode && IsJavaText(text)
    ensures DecodeUnicode(Sanitized(store, Some(text), profile, mode).cleanedValue) ==
            Some(ApplyPattern(text, profile))
  {
    var kept := ApplyPattern(text, profile);
    assert IsJavaText(kept) by {
      forall i | 0 <= i < |kept|
        ensures kept[i] as int < 0x1_0000
      {
        assert multiset(kept)[kept[i]] > 0;
        assert kept[i] in multiset(text);
      }
    }
    UnicodeRoundTrip(kept);
  }

  /** Under "alnum" only letters and digits survive the filter, so whatever the
      encoding mode the cleaned value is the filtered input unchanged. */
  lemma AlnumIgnoresEncoding(store: Store, text: string, profile: string, mode: string)
    requires ParseProfile(profile) == Alnum
    ensures Sanitized(store, Some(text), profile, mode).cleanedValue == ApplyPattern(text, profile)
    ensures forall i :: 0 <= i < |Sanitized(store, Some(text), profile, mode).cleanedValue| ==>
                        IsAsciiAlnum(Sanitized(store, Some(text), profile, mode).cleanedValue[i])
  {
    EncodeBounds(ApplyPattern(text, profile), ParseMode(mode));
  }

  // ---------------------------------------------------------------------------
  // Scenarios
  // ---------------------------------------------------------------------------

  /** Sanitized, field by field, from the matches and the cleaned value. */
  lemma SanitizedFrom(store: Store, text: string, profile: string, mode: string,
                      matches: Store, cleaned: string)
    requires Matches(store, ToLower(text)) == matches
    requires Encode(ApplyPattern(text, profile), ParseMode(mode)) == cleaned
    ensures Sanitized(store, Some(text), profile, mode) ==
            Fields(text, cleaned, matches != map[], matches, mode, profile)
  {
  }

  /** A store of one category holding one term that occurs in the text is
      matched whole. */
  lemma SingleTermMatched(c: string, term: string, lowered: string)
    requires term <= lowered
    ensures Matches(map[c := [term]], lowered) == map[c := [term]]
  {
    assert Contains(lowered, term);
    Sequences.FilterAllKept([term], t => Contains(lowered, t));
  }

  /** A stored SQL term is found in any letter case, and the alnum profile
      deletes the blanks, after which no character is left for the encoder
      to rewrite: "DROP TABLE users" is hostile, matched under "sql",
      and cleaned to "DROPTABLEusers". */
  lemma DropTableScenario()
    ensures var store := map["sql" := ["drop table"]];
            Sanitized(store, Some("DROP TABLE users"), "alnum", "UNICODE") ==
            Fields("DROP TABLE users", "DROPTABLEusers", true, store, "UNICODE", "alnum")
  {
    var store := map["sql" := ["drop table"]];
    var text := "DROP TABLE users";
    DropTableMatched();
    DropTableCleaned();
    SanitizedFrom(store, text, "alnum", "UNICODE", store, "DROPTABLEusers");
    assert "sql" in store;
  }

  lemma DropTableMatched()
    ensures Matches(map["sql" := ["drop table"]], ToLower("DROP TABLE users")) ==
            map["sql" := ["drop table"]]
  {
    var lowered := ToLower("DROP TABLE users");
    assert lowered == "drop table" + " users";
    SingleTermMatched("sql", "drop table", lowered);
  }

  lemma DropTableCleaned()
    ensures Encode(ApplyPattern("DROP TABLE users", "alnum"), ParseMode("UNICODE")) == "DROPTABLEusers"
  {
    AlnumExample();
    ParseKnownProfiles();
    AlnumIgnoresEncoding(map[], "DROP TABLE users", "alnum", "UNICODE");
  }

  /** A script tag passed through and HTML-encoded is still reported: the tag
      is hostile under "xss" and its cleaned value is "&lt;script&gt;". */
  lemma ScriptScenario()
    ensures var store := map["xss" := ["<script>"]];
            Sanitized(store, Some("<script>"), "any", "HTML") ==
            Fields("<script>", "&lt;script&gt;", true, store, "HTML", "any")
  {
    var store := map["xss" := ["<script>"]];
    var text := "<script>";
    ScriptMatched();
    ScriptCleaned();
    SanitizedFrom(store, text, "any", "HTML", store, "&lt;script&gt;");
    assert "xss" in store;
  }

  lemma ScriptMatched()
    ensures Matches(map["xss" := ["<script>"]], ToLower("<script>")) == map["xss" := ["<script>"]]
  {
    var lowered := ToLower("<script>");
    assert lowered == "<script>";
    SingleTermMatched("xss", "<script>", lowered);
  }

  lemma ScriptCleaned()
    ensures Encode(ApplyPattern("<script>", "any"), ParseMode("HTML")) == "&lt;script&gt;"
  {
    assert ApplyPattern("<script>", "any") == "<script>" by { ParseKnownProfiles(); }
    assert ParseMode("HTML") == Html by { ParseKnownModes(); }
    ScriptTagExample();
  }
}
