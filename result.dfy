/** The outcome of one sanitization: the text as received, its cleaned and
    encoded form, whether a blacklisted term was found, the terms found by
    category, and the mode and profile that were asked for. */
module Results {

  /** The six values a result holds, taken together. */
  datatype Fields = Fields(
    originalValue: string,
    cleanedValue: string,
    hostility: bool,
    matchesByCategory: map<string, seq<string>>,
    encodingMode: string,
    patternProfile: string)

  /** A mutable record: every field has a getter and a setter. Each setter's
      modifies clause names only its own field, so the other five keep their
      values. */
  class SanitizationResult {
    var originalValue: string
    var cleanedValue: string
    var hostility: bool
    var matchesByCategory: map<string, seq<string>>
    var encodingMode: string
    var patternProfile: string

    /** The current values of all six fields. */
    function Snapshot(): (f: Fields)
      reads this
      ensures f.originalValue == originalValue && f.cleanedValue == cleanedValue
      ensures f.hostility == hostility && f.matchesByCategory == matchesByCategory
      ensures f.encodingMode == encodingMode && f.patternProfile == patternProfile
    {
      Fields(originalValue, cleanedValue, hostility, matchesByCategory, encodingMode, patternProfile)
    }

    /** Stores the six values as given. */
    constructor (originalValue: string, cleanedValue: string, hostility: bool,
                 matchesByCategory: map<string, seq<string>>, encodingMode: string,
                 patternProfile: string)
      ensures Snapshot() ==
              Fields(originalValue, cleanedValue, hostility, matchesByCategory, encodingMode, patternProfile)
    {
      this.originalValue := originalValue;
      this.cleanedValue := cleanedValue;
      this.hostility := hostility;
      this.matchesByCategory := matchesByCategory;
      this.encodingMode := encodingMode;
      this.patternProfile := patternProfile;
    }

    function GetOriginalValue(): (v: string)
      reads this
      ensures v == Snapshot().originalValue
    {
      originalValue
    }

    method SetOriginalValue(v: string)
      modifies this`originalValue
      ensures Snapshot() == old(Snapshot()).(originalValue := v)
    {
      originalValue := v;
    }

    function GetCleanedValue(): (v: string)
      reads this
      ensures v == Snapshot().cleanedValue
    {
      cleanedValue
    }

    method SetCleanedValue(v: string)
      modifies this`cleanedValue
      ensures Snapshot() == old(Snapshot()).(cleanedValue := v)
    {
      cleanedValue := v;
    }

    /** isHostility in the record's own naming. */
    function IsHostility(): (v: bool)
      reads this
      ensures v == Snapshot().hostility
    {
      hostility
    }

    method SetHostility(v: bool)
      modifies this`hostility
      ensures Snapshot() == old(Snapshot()).(hostility := v)
    {
      hostility := v;
    }

    function GetMatchesByCategory(): (v: map<string, seq<string>>)
      reads this
      ensures v == Snapshot().matchesByCategory
    {
      matchesByCategory
    }

    method SetMatchesByCategory(v: map<string, seq<string>>)
      modifies this`matchesByCategory
      ensures Snapshot() == old(Snapshot()).(matchesByCategory := v)
    {
      matchesByCategory := v;
    }

    function GetEncodingMode(): (v: string)
      reads this
      ensures v == Snapshot().encodingMode
    {
      encodingMode
    }

    method SetEncodingMode(v: string)
      modifies this`encodingMode
      ensures Snapshot() == old(Snapshot()).(encodingMode := v)
    {
      encodingMode := v;
    }

    function GetPatternProfile(): (v: string)
      reads this
      ensures v == Snapshot().patternProfile
    {
      patternProfile
    }

    method SetPatternProfile(v: string)
      modifies this`patternProfile
      ensures Snapshot() == old(Snapshot()).(patternProfile := v)
    {
      patternProfile := v;
    }
  }
}
