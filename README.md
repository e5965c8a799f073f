# BienUtilsSentinel sanitization core in Dafny

BienUtilsSentinel is a text-sanitization service. A caller gives it a text, a
pattern profile and an encoding mode. The service then does four things:

- It looks the lower-cased text up against a blacklist of malicious terms,
  grouped by category (sql, xss, cmd, ...).
- It reports the matches, and marks the text hostile when there are any.
- It filters the text according to the profile (`alnum`, `numeric+dot`,
  `any`).
- It rewrites every character that is not a letter or digit according to the
  mode (`ASCII`, `UNICODE`, `HTML`, `NONE`).

This project models that core: the blacklist store, the sanitization
service and the result record. It proves what each operation computes.

| file | module | contents |
|---|---|---|
| `wrappers.dfy` | `Wrappers` | `Option`, standing for a Java `null` or a missing resource |
| `java_text.dfy` | `JavaText` | the `String` operations the core calls, as functions over `seq<char>`: `trim`, `toLowerCase`/`toUpperCase`, `contains`, `split("\\.")` |
| `format.dfy` | `Format` | `%X` with zero padding, decimal `toString`, and the parsers that read them back |
| `sequences.dfy` | `Sequences` | an order-keeping filter, shared by term lookup and the pattern profiles |
| `blacklist.dfy` | `Blacklist` | the loading of the store from key/value pairs, the lookups, and the `BlacklistLoader` class |
| `patterns.dfy` | `Patterns` | `applyPattern` |
| `encoding.dfy` | `Encoding` | `applyEncoding` (a loop, as in the source), `encodeHtmlEntity`, and reference decoders for the HTML and UNICODE outputs |
| `result.dfy` | `Results` | the `SanitizationResult` class with its six fields, getters and setters |
| `service.dfy` | `Service` | the `SanitizationService` class, `sanitize`, and properties of whole sanitizations |

## How the model is built

- **Store as a class.** `BlacklistLoader` is a class whose `blacklist`
  field the loading loop fills.
- **Properties input.** The properties resource is a parameter: a sequence of
  key/value pairs, or `None` when the resource is missing. The sequence stands
  for the order in which `props.stringPropertyNames()` hands out the keys, a
  hash order, not the line order of the `.properties` file. Every "in order"
  below means this iteration order.
- **Specification function.** The loop is proved against a pure function,
  `Load`.
- **Reference definition.** `Load` is proved to agree with an independent
  definition, `TermsFiledUnder`: "the normalized values filed under category
  c, in order".
- **`findMatches`.** It is a nested loop, proved to return `Matches`.
- **`applyEncoding`.** It is a loop over the characters, proved to return
  `Encode`.
- **Decoders.** Under `HTML`, `Encode` is proved to be inverted by a reference
  decoder for every text. Under `UNICODE` the same holds for text below
  U+10000. `ASCII` is not invertible: `AsciiAmbiguousAbove0xFF` exhibits two
  texts with the same output, U+0300 followed by `0` and U+3000, neither of
  which holds a letter or digit.
- **`sanitize`.** It is a method of the service class and returns a fresh
  `SanitizationResult`. Its six fields equal the pure function `Sanitized`,
  about which the properties of a whole sanitization are proved.
- **Two consequences of the code:**
  - Under `numeric+dot`, `"192.168.0.1:8080"` becomes `"192.168.0.18080"`:
    the filter deletes the colon.
  - HTML-encoding `"&amp;"` gives `"&amp;amp&#59;"`: the `;` is not a letter
    or digit, so it becomes `&#59;`.

## Model

| member | source | states |
|---|---|---|
| Blacklist.CategoryIffShape | src/main/java/dev/bienstudios/bienutilssentinel/config/BlacklistLoader.java:36-40 | a key is accepted iff, cut at every dot, it has a non-empty second piece and only empty pieces after it (trailing empty pieces of `split` dropped); the category is the first piece |
| Blacklist.AcceptedKeyShape | src/main/java/dev/bienstudios/bienutilssentinel/config/BlacklistLoader.java:36-40 | keys like `sql.1`, `a.b.` and `.x` are accepted and filed under `sql`, `a` and the empty category |
| Blacklist.NoDotRejected | src/main/java/dev/bienstudios/bienutilssentinel/config/BlacklistLoader.java:37-38 | a key without a dot is skipped |
| Blacklist.EmptyDiscriminatorRejected | src/main/java/dev/bienstudios/bienutilssentinel/config/BlacklistLoader.java:37-38 | `sql.` and `sql..x` are skipped |
| Blacklist.ThirdPieceRejected | src/main/java/dev/bienstudios/bienutilssentinel/config/BlacklistLoader.java:37-38 | a key with a third non-empty piece (`a.b.c`) is skipped |
| Blacklist.NormalizeSpec | src/main/java/dev/bienstudios/bienutilssentinel/config/BlacklistLoader.java:41 | a stored value has no upper-case letter and no blank at either end; normalizing twice is normalizing once |
| Blacklist.GroupByCategory | src/main/java/dev/bienstudios/bienutilssentinel/config/BlacklistLoader.java:36-44 | a category is in the loaded store iff some accepted key files a value under it, and its list is exactly those values, trimmed and lower-cased, in order, duplicates kept |
| Blacklist.GroupNormalized | src/main/java/dev/bienstudios/bienutilssentinel/config/BlacklistLoader.java:41-43 | every stored list is non-empty and every stored term is normalized |
| Blacklist.GroupTotal | src/main/java/dev/bienstudios/bienutilssentinel/config/BlacklistLoader.java:36-44 | the store holds exactly as many terms as there were accepted keys |
| Blacklist.AddEntryTotal | src/main/java/dev/bienstudios/bienutilssentinel/config/BlacklistLoader.java:38-43 | one loop iteration adds one term for an accepted key and none for a malformed one |
| Blacklist.MatchesSpec | src/main/java/dev/bienstudios/bienutilssentinel/config/BlacklistLoader.java:90-106 | a category is in the matches iff one of its terms occurs in the lowered input, and it maps to exactly those terms, as a subsequence in stored order |
| Blacklist.MatchesEmptyIff | src/main/java/dev/bienstudios/bienutilssentinel/config/BlacklistLoader.java:77-82 | the matches are non-empty iff some stored term occurs in the lowered input |
| Blacklist.EmptyTermMatchesEverything | src/main/java/dev/bienstudios/bienutilssentinel/config/BlacklistLoader.java:91-97 | an empty stored term matches every input, the empty input included |
| Blacklist.MatchesIgnoreCase | src/main/java/dev/bienstudios/bienutilssentinel/config/BlacklistLoader.java:91 | matching an input and its lower-cased form give the same result |
| Blacklist.BlacklistLoader.constructor | src/main/java/dev/bienstudios/bienutilssentinel/config/BlacklistLoader.java:19-31 | the store is loaded from the given source; a missing source leaves it empty |
| Blacklist.BlacklistLoader.LoadBlacklist | src/main/java/dev/bienstudios/bienutilssentinel/config/BlacklistLoader.java:36-44 | the loop leaves the store equal to `Load` of the source |
| Blacklist.BlacklistLoader.GetBlacklist | src/main/java/dev/bienstudios/bienutilssentinel/config/BlacklistLoader.java:58-60 | the whole store, whose categories and lists are those of the reference definition and whose terms are normalized |
| Blacklist.BlacklistLoader.GetByCategory | src/main/java/dev/bienstudios/bienutilssentinel/config/BlacklistLoader.java:67-69 | the stored list of a known category, the empty list otherwise, equal to the values filed under it |
| Blacklist.BlacklistLoader.ContainsAny | src/main/java/dev/bienstudios/bienutilssentinel/config/BlacklistLoader.java:77-82 | true iff `findMatches` of the same input is non-empty |
| Blacklist.BlacklistLoader.FindMatches | src/main/java/dev/bienstudios/bienutilssentinel/config/BlacklistLoader.java:90-107 | the nested loop returns `Matches` of the store and the lowered input, and changes nothing |
| Patterns.ParseProfile | src/main/java/dev/bienstudios/bienutilssentinel/core/SanitizationService.java:63-67 | `alnum` and `numeric+dot` are recognised in any letter case |
| Patterns.ProfileIgnoresCase | src/main/java/dev/bienstudios/bienutilssentinel/core/SanitizationService.java:63 | an upper-cased profile name selects the same profile |
| Patterns.ApplyPattern | src/main/java/dev/bienstudios/bienutilssentinel/core/SanitizationService.java:62-69 | the result is the subsequence of the input made of exactly the characters the profile admits, with the same counts; pass-through profiles return the input |
| Patterns.NumericDotExample | src/main/java/dev/bienstudios/bienutilssentinel/core/SanitizationService.java:65 | `192.168.0.1:8080` under `numeric+dot` becomes `192.168.0.18080` |
| Patterns.AlnumExample | src/main/java/dev/bienstudios/bienutilssentinel/core/SanitizationService.java:64 | `DROP TABLE users` under `alnum` becomes `DROPTABLEusers` |
| Encoding.ParseMode | src/main/java/dev/bienstudios/bienutilssentinel/core/SanitizationService.java:86-92 | `ASCII`, `UNICODE` and `HTML` are recognised in any letter case |
| Encoding.EncodeHtmlEntity | src/main/java/dev/bienstudios/bienutilssentinel/core/SanitizationService.java:105-114 | an entity starts with `&`, ends with its only `;`, and decodes back to the character |
| Encoding.EncodeAppend | src/main/java/dev/bienstudios/bienutilssentinel/core/SanitizationService.java:82-94 | encoding a concatenation is concatenating the encodings |
| Encoding.EncodeBounds | src/main/java/dev/bienstudios/bienutilssentinel/core/SanitizationService.java:82-94 | the output is never shorter than the input; letters and digits, and any text under a copying mode, are unchanged |
| Encoding.UnicodeEscape | src/main/java/dev/bienstudios/bienutilssentinel/core/SanitizationService.java:88 | under `UNICODE`, a non-alphanumeric Java char becomes `\u` and exactly four upper-case hex digits of its code |
| Encoding.AsciiEscape | src/main/java/dev/bienstudios/bienutilssentinel/core/SanitizationService.java:87 | under `ASCII`, `\x` and at least two hex digits of the code, exactly two iff the code is below 0x100 |
| Encoding.ApplyEncoding | src/main/java/dev/bienstudios/bienutilssentinel/core/SanitizationService.java:78-97 | the loop returns `Encode` of the input under the parsed mode; never shorter; unchanged under a copying mode |
| Encoding.HtmlRoundTrip | src/main/java/dev/bienstudios/bienutilssentinel/core/SanitizationService.java:78-114 | decoding the HTML output gives the input back |
| Encoding.UnicodeRoundTrip | src/main/java/dev/bienstudios/bienutilssentinel/core/SanitizationService.java:88 | decoding the UNICODE output of Java text gives the input back |
| Encoding.AsciiAmbiguousAbove0xFF | src/main/java/dev/bienstudios/bienutilssentinel/core/SanitizationService.java:87 | U+0300 followed by `0`, and U+3000, are not letters or digits and share the ASCII output `\x3000`, so `%02X` escapes above 0xFF are ambiguous |
| Encoding.HtmlNotIdempotent | src/main/java/dev/bienstudios/bienutilssentinel/core/SanitizationService.java:78-114 | `&` becomes `&amp;`, and that becomes `&amp;amp&#59;` |
| Encoding.ScriptTagExample | src/main/java/dev/bienstudios/bienutilssentinel/core/SanitizationService.java:78-114 | `<script>` under `HTML` becomes `&lt;script&gt;` |
| Format.HexRoundTrip | src/main/java/dev/bienstudios/bienutilssentinel/core/SanitizationService.java:87-88 | the hex digits read back as the number, and there are at most k of them iff the number is below 16^k |
| Format.HexPadded | src/main/java/dev/bienstudios/bienutilssentinel/core/SanitizationService.java:87-88 | zero-padded hex reads back as the number and has max(width, digits) characters |
| Format.DecimalRoundTrip | src/main/java/dev/bienstudios/bienutilssentinel/core/SanitizationService.java:112 | the decimal digits of a code read back as the code |
| Results.SanitizationResult.constructor | src/main/java/dev/bienstudios/bienutilssentinel/core/SanitizationResult.java:49-63 | the six arguments are stored unchanged |
| Results.SanitizationResult.GetOriginalValue | src/main/java/dev/bienstudios/bienutilssentinel/core/SanitizationResult.java:67-69 | the current original value |
| Results.SanitizationResult.SetOriginalValue | src/main/java/dev/bienstudios/bienutilssentinel/core/SanitizationResult.java:71-73 | sets the original value; the other five fields keep theirs |
| Results.SanitizationResult.GetCleanedValue | src/main/java/dev/bienstudios/bienutilssentinel/core/SanitizationResult.java:75-77 | the current cleaned value |
| Results.SanitizationResult.SetCleanedValue | src/main/java/dev/bienstudios/bienutilssentinel/core/SanitizationResult.java:79-81 | sets the cleaned value; the other five fields keep theirs |
| Results.SanitizationResult.IsHostility | src/main/java/dev/bienstudios/bienutilssentinel/core/SanitizationResult.java:83-85 | the current hostility flag |
| Results.SanitizationResult.SetHostility | src/main/java/dev/bienstudios/bienutilssentinel/core/SanitizationResult.java:87-89 | sets the hostility flag; the other five fields keep theirs |
| Results.SanitizationResult.GetMatchesByCategory | src/main/java/dev/bienstudios/bienutilssentinel/core/SanitizationResult.java:91-93 | the current matches |
| Results.SanitizationResult.SetMatchesByCategory | src/main/java/dev/bienstudios/bienutilssentinel/core/SanitizationResult.java:95-97 | sets the matches; the other five fields keep theirs |
| Results.SanitizationResult.GetEncodingMode | src/main/java/dev/bienstudios/bienutilssentinel/core/SanitizationResult.java:99-101 | the current encoding mode |
| Results.SanitizationResult.SetEncodingMode | src/main/java/dev/bienstudios/bienutilssentinel/core/SanitizationResult.java:103-105 | sets the encoding mode; the other five fields keep theirs |
| Results.SanitizationResult.GetPatternProfile | src/main/java/dev/bienstudios/bienutilssentinel/core/SanitizationResult.java:107-109 | the current pattern profile |
| Results.SanitizationResult.SetPatternProfile | src/main/java/dev/bienstudios/bienutilssentinel/core/SanitizationResult.java:111-113 | sets the pattern profile; the other five fields keep theirs |
| Service.SanitizationService.constructor | src/main/java/dev/bienstudios/bienutilssentinel/core/SanitizationService.java:24-26 | the service owns a freshly loaded blacklist |
| Service.SanitizationService.Sanitize | src/main/java/dev/bienstudios/bienutilssentinel/core/SanitizationService.java:36-53 | a fresh result: null read as empty, matches on the raw input, hostility iff matches, pattern then encoding, mode and profile echoed |
| Service.HostileIffTermOccurs | src/main/java/dev/bienstudios/bienutilssentinel/core/SanitizationService.java:39-40 | hostile iff some stored term occurs in the lowered raw input, whatever the profile and mode |
| Service.NullInput | src/main/java/dev/bienstudios/bienutilssentinel/core/SanitizationService.java:37 | a null input gives empty original and cleaned values, and is hostile iff the store holds an empty term |
| Service.DefaultsPassThrough | src/main/java/dev/bienstudios/bienutilssentinel/http/SanitizationHandler.java:51-53 | with the front end's defaults `any` and `NONE` the cleaned value is the input |
| Service.HtmlCleanedDecodes | src/main/java/dev/bienstudios/bienutilssentinel/core/SanitizationService.java:42-43 | under `HTML` the cleaned value decodes to the filtered input |
| Service.UnicodeCleanedDecodes | src/main/java/dev/bienstudios/bienutilssentinel/core/SanitizationService.java:42-43 | under `UNICODE` the cleaned value of Java text decodes to the filtered input |
| Service.AlnumIgnoresEncoding | src/main/java/dev/bienstudios/bienutilssentinel/core/SanitizationService.java:42-43 | under `alnum` every mode leaves the filtered text unchanged, and it holds only ASCII letters and digits |
| Service.DropTableScenario | src/main/java/dev/bienstudios/bienutilssentinel/http/SanitizationHandler.java:22-27 | `DROP TABLE users` against `sql = drop table` under `alnum` and `UNICODE` is hostile, matched under `sql`, cleaned to `DROPTABLEusers` |
| Service.ScriptScenario | src/main/java/dev/bienstudios/bienutilssentinel/core/SanitizationService.java:36-53 | `<script>` against `xss = <script>` under `any`/`HTML` is hostile and cleaned to `&lt;script&gt;` |
| Blacklist.Category | src/main/java/dev/bienstudios/bienutilssentinel/config/BlacklistLoader.java:37-40 | the category of a key: the first piece of the Java split when there are exactly two pieces, else none; an accepted category is the dot-free text before the key's first dot |
| Blacklist.Normalize | src/main/java/dev/bienstudios/bienutilssentinel/config/BlacklistLoader.java:41 | the stored form of a value, `trim` then `toLowerCase`; it is normalized and no longer than the value |
| Blacklist.AddEntry | src/main/java/dev/bienstudios/bienutilssentinel/config/BlacklistLoader.java:38-43 | one loop iteration: a malformed key leaves the store as it was; an accepted one appends the normalized value to its category's list, creating the list if needed, and leaves every other category unchanged |
| Blacklist.Group | src/main/java/dev/bienstudios/bienutilssentinel/config/BlacklistLoader.java:36-44 | the store after the loop has run over the entries from an empty map; every list in it is non-empty |
| Blacklist.Load | src/main/java/dev/bienstudios/bienutilssentinel/config/BlacklistLoader.java:26-44 | the store loaded from the source: empty for a missing resource; a category is present iff some entry is filed under it |
| Blacklist.Found | src/main/java/dev/bienstudios/bienutilssentinel/config/BlacklistLoader.java:95-100 | the inner loop's `found` list: the terms occurring in the lowered input, as a subsequence of the category's list, non-empty iff some term occurs, and holding each occurring term as often as it is stored and no other term |
| Blacklist.Matches | src/main/java/dev/bienstudios/bienutilssentinel/config/BlacklistLoader.java:92-104 | the map `findMatches` builds: only stored categories, each mapped to a non-empty subsequence of its list made of terms occurring in the lowered input |
| Patterns.Admits | src/main/java/dev/bienstudios/bienutilssentinel/core/SanitizationService.java:64-67 | which characters a profile keeps: `[a-zA-Z0-9]`, `[0-9.]`, or all |
| Patterns.Keep | src/main/java/dev/bienstudios/bienutilssentinel/core/SanitizationService.java:64-65 | `replaceAll` of the complement class with `""`: the characters the profile admits, in order |
| Encoding.EncodeChar | src/main/java/dev/bienstudios/bienutilssentinel/core/SanitizationService.java:83-92 | what one character appends to the builder: itself when it is a letter or digit or the mode copies; otherwise at least four characters starting with `\` or `&` |
| Encoding.Encode | src/main/java/dev/bienstudios/bienutilssentinel/core/SanitizationService.java:82-94 | the builder's content after the whole loop: each character's encoding in order; never shorter than the text |
| Service.Sanitized | src/main/java/dev/bienstudios/bienutilssentinel/core/SanitizationService.java:36-53 | the six fields `sanitize` returns: the input with null read as `""`, the encoded filtered text, hostility iff the matches are non-empty, the matches, and the mode and profile names as given |
| JavaText.JavaSplit | src/main/java/dev/bienstudios/bienutilssentinel/config/BlacklistLoader.java:37 | `split("\\.")`: a prefix of the dot pieces, none containing a dot; with a dot in the key, trailing empty pieces are gone |
| JavaText.ToLower | src/main/java/dev/bienstudios/bienutilssentinel/config/BlacklistLoader.java:41 | `toLowerCase` as ASCII folding: same length, each character lowered |
| JavaText.ToUpper | src/main/java/dev/bienstudios/bienutilssentinel/core/SanitizationService.java:86 | `toUpperCase` as ASCII folding: same length, each character raised |
| JavaText.Contains | src/main/java/dev/bienstudios/bienutilssentinel/config/BlacklistLoader.java:97 | `contains`: the term is a prefix of the text or of one of its suffixes |
| JavaText.IsLetterOrDigit | src/main/java/dev/bienstudios/bienutilssentinel/core/SanitizationService.java:83 | `Character.isLetterOrDigit`, for ASCII letters and digits |
| Format.Hex | src/main/java/dev/bienstudios/bienutilssentinel/core/SanitizationService.java:87-88 | `%X`: upper-case hex digits without leading zeros |
| Format.Decimal | src/main/java/dev/bienstudios/bienutilssentinel/core/SanitizationService.java:112 | the decimal text of `(int) c`, without leading zeros |
| JavaText.Trim | src/main/java/dev/bienstudios/bienutilssentinel/config/BlacklistLoader.java:41 | `trim` is the infix left after removing every character up to U+0020 from both ends |
| JavaText.ToLowerFolds | src/main/java/dev/bienstudios/bienutilssentinel/config/BlacklistLoader.java:41 | lower-casing leaves no upper-case letter and is idempotent |
| JavaText.ContainsIffOccurs | src/main/java/dev/bienstudios/bienutilssentinel/config/BlacklistLoader.java:97 | `contains` holds iff the term occurs at some position |
| JavaText.SplitDotsJoin | src/main/java/dev/bienstudios/bienutilssentinel/config/BlacklistLoader.java:37 | the dot-separated pieces hold no dot and join back to the key; a key has a dot iff it has two or more pieces |
| JavaText.DropTrailingEmpty | src/main/java/dev/bienstudios/bienutilssentinel/config/BlacklistLoader.java:37 | `split` keeps a prefix of the pieces, drops only empty ones, and ends in a non-empty piece |

## Left out

- Resource loading, `.properties` parsing and console logging (BlacklistLoader.java lines 27-34 and 46-50). The resource is an optional sequence of key/value pairs, and `None` stands for the missing file. `Properties` makes keys unique; the model accepts any sequence, duplicate keys included.
- `IOException` is not modelled separately. Thrown by `props.load` (BlacklistLoader.java line 34), it skips the loop and leaves the store empty, as `None` does. Thrown when the stream is closed, it comes after the loop, and the store is fully loaded.
- A malformed `\uXXXX` escape in the resource makes `props.load` throw an `IllegalArgumentException`, which is not caught, so the loader cannot be constructed. The model's input is already parsed, so this case does not arise.
- The HTTP handler (status codes, JSON reading and writing) and server startup. Only the handler's defaults `""`, `"any"` and `"NONE"` are kept, as constants.
- `HashMap` iteration order: the store and the matches are maps, so categories have no order. `Collections.unmodifiableMap` is modelled as returning the map value.
- Aliasing. Java hands out live references in three places: the store's own `ArrayList` returned by `getByCategory` (BlacklistLoader.java lines 67-68), the same lists reached through the unmodifiable map view of `getBlacklist` (lines 58-59), and the matches map held by the result record and exposed by `getMatchesByCategory` and `setMatchesByCategory` (SanitizationResult.java lines 91-97). A caller could mutate the store's lists through the first two and so change what later `findMatches` and `containsAny` calls see. The model returns values in all three places, so mutation through these references is not modelled.
- `null` profile or mode names. A null profile throws (SanitizationService.java line 63). A null mode throws only when the filtered text holds a character that is not a letter or digit (line 86), and is otherwise echoed as null. The model's names are strings, never null.
- The `input == null` branch of `applyEncoding`. `sanitize` never passes null, so this branch is unreachable.
- JavaText.IsLetterOrDigit: stated for ASCII letters and digits only. `Character.isLetterOrDigit` also keeps non-ASCII letters such as `é`, which the model encodes.
- JavaText.ToLower: ASCII case folding, not locale-sensitive Unicode case mapping.
- JavaText.ToUpper: ASCII case folding, not locale-sensitive Unicode case mapping.
- Java `char` is a UTF-16 code unit; a Dafny `char` is a Unicode scalar value. The model encodes each character whole. Java escapes each half of a surrogate pair, so the UNICODE round trip is stated for text below U+10000 only.
- `replaceAll` with a regular expression is modelled by the explicit character-class filter it denotes.
