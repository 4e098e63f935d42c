# Verified model of event ingestion

This project models, in Dafny, the two places of the analytics backend where untrusted or external
text becomes something the system relies on:

- `backend/internal/validate`: the events a client sends are trimmed, bounded, stripped of fragments
  and sensitive query parameters, checked against the columns of the events table, and split into
  accepted rows and rejections by index;
- `backend/internal/config/expand.go`: the `${VAR}` and `${VAR:-fallback}` placeholders of a parsed
  configuration are resolved from the environment.

Strings are byte strings. The library code that these parts lean on is modelled concretely where a
property depends on it: the UTF-8 decoder and white-space trimming, percent-decoding, query parsing
and printing, the split of a URL into prefix, query and fragment, and the JSON scanner behind
compaction.

| file | content |
|---|---|
| `Bytes.dfy`, `Ordering.dfy` | byte strings, cutting at a separator, sorting |
| `Utf8.dfy`, `Text.dfy` | decoding, truncation to a number of runes, trimming, bounded columns |
| `Decimal.dfy` | digits, capitals, and what fits Decimal(precision, scale) |
| `Query.dfy`, `Denylist.dfy`, `Sanitize.dfy` | query strings, the denied names, stripping a URL |
| `Reading.dfy` | what a reader of the stored text finds in it, skipped segments included |
| `CutSafety.dfy`, `CutPoint.dfy` | what cutting a stripped URL brings back for the source's parser: over all limits, and at which limits |
| `Json.dfy`, `JsonGrammar.dfy` | compaction of JSON text by a scanner; the grammar of RFC 8259, and that the scanner accepts exactly its texts |
| `Model.dfy`, `Limits.dfy` | events, rows, reasons, observations, bounds |
| `Rules.dfy`, `Pipeline.dfy`, `Batch.dfy` | what each rule decides, reports and writes; properties of whole runs and of whole requests |
| `Columns.dfy`, `StoredUrls.dfy` | the reason, the columns and the reports of an event, told from its fields and the row alone; the URLs of accepted rows |
| `Validator.dfy` | the observer, the row under construction and the validator as classes, proved against `Rules`, `Pipeline` and `Batch` |
| `Expand.dfy` | placeholders, their unique decomposition, and the configuration as a class |

`dafny verify dfyconfig.toml` checks the whole project.

## How the properties are stated

A loop or a state change of the source is a method. Its contract ties the result or the new state to a
specification function, and the properties below are lemmas about those functions. Where the source
ranges over a map, the method picks the elements in an arbitrary order, so its contract holds for every
order.

Assumptions and parameters:

- The part of a URL before its query (scheme, authority, path) is opaque: a parameter says whether it
  parses and how it prints. Lemmas that need it assume `Sanitize.Reparses`: what is printed contains
  no `#`, no `?` and no control character, and parses back to itself. The bounds of the columns hold
  without that assumption.
- The URL library may bound the number of parameters of a query: it counts the separators first and hands
  over nothing at all beyond the bound. `Sanitize.UrlLibrary.maxParams` is that bound, or none; every
  property holds for each of them.
- Case mapping, UUID parsing, RFC 3339 parsing and the decoding of one JSON event are arbitrary
  functions (`Model.Library`); every property holds for all of them. The clock and the id generator
  answer once per event (`Model.Tick`). Instants are integers.

## What turned out to be false, and when exactly it holds

- The comment on the denylist says that its parameters must never reach storage. Stripping is all or
  nothing: a denied name is in the text of the stored query, and a value behind it, exactly when it was in
  the text that came in and the query was not printed anew (`Reading.CarriedUnlessRebuilt`,
  `Reading.ShownUnlessRebuilt`, over all limits). It is printed anew when the URL parses, its parameters
  are within the library's bound, and a segment that the parser accepts names a denied parameter
  (`Sanitize.IsRebuilt`). In the text, a name is what precedes the first `=` of a segment, percent-decoded,
  and also of the pieces between semicolons; the same holds for every reading that finds nothing where
  the parser accepts a segment and finds nothing denied (`Reading.FoundUnlessRebuilt`,
  `Reading.FoundAfterCut`). Denied parameters are stored in these ways, each for every denied name:
  - in a segment that the parser skips: `/?name=;ab` (`Reading.LeadingSemicolonIsKept`), `/?name=ab%`
    (`Reading.BrokenValueIsKept`), and every other skipped segment (`Reading.SkippedIsKept`);
  - in a query with more parameters than the library reads: `/?&...&name=value`
    (`Sanitize.CrowdedQueryKeepsDenied`);
  - in a URL that does not parse: `/%?name=value` (`Sanitize.BrokenPrefixKeepsDenied`) and `/?name=value#%`
    (`Sanitize.BrokenFragmentKeepsDenied`).
- Read by the source's own parser, which skips a segment that is not well formed, the stripped query names
  no denied parameter exactly when the URL parses and is within the bound, or it named none
  (`Sanitize.StrippedIffRead`). Among the URLs above, `/?name=value#%` parses after the cut, so that another
  pass would find the parameter: a pass settles exactly the URLs that are not of this kind
  (`Sanitize.StripSettles`).
- Again for that parser, cutting a stripped URL to its limit can bring a denied parameter back. Over all
  limits, it finds nothing denied in the result, except a bare name cut short at its very end, exactly when
  the query is printed anew, or the URL that came in has no denied parameter (a bare last name aside) and no
  skipped segment in which a denied name precedes a value that starts well (`CutSafety.CutAfterStripIsSafe`,
  `CutSafety.SanitizedIsSafe`). `/?token=ab;` cut before the semicolon fails (`CutSafety.SemicolonReturns`).
  At one limit, it is exactly where the cut falls that decides (`CutPoint.StrippedReturnsAt`).
- Stored properties are within their limit exactly when the limit is at least two: a limit of one is
  accepted, and every accepted event then stores `{}`, two bytes (`Pipeline.PropertiesWithinLimit`).
  The comment on the bound says that it is measured on the bytes that will be stored; the code measures
  it on the trimmed input, before compaction, and does not apply it to `{}`.
- A bounded value is settled after one application exactly when the trimmed input fits, or the last of its
  runes that fits is no space, and always after two (`Text.BoundedStabilises`, `Text.BoundedOnceIsNotFixed`).
- The comment on compaction says that two spellings of one object should not compare unequal. They are
  stored alike, but may be judged differently, exactly when one alone exceeds the limit before compaction;
  every accepted object has a spelling that is refused, and one that is accepted exists exactly when the
  compact form fits or is `{}` (`Pipeline.SpellingsDiffer`, `Pipeline.PaddingIsRefused`,
  `Pipeline.SomeSpellingIsAccepted`).

## Model

| member | source | states |
|---|---|---|
| Utf8.TruncateRunes | backend/internal/validate/sanitize.go:131-144 | the loop cuts exactly where the specification does, reports a cut iff there are more runes than a positive limit, and its last return is unreachable |
| Utf8.TruncationExact | backend/internal/validate/sanitize.go:131-144 | for every byte string, valid or not, the result decodes to exactly the first min(limit, n) runes of the input, and is the only prefix that does |
| Utf8.TruncationSettles | backend/internal/validate/sanitize.go:125-144 | truncation keeps valid UTF-8 valid, stays within the limit, differs from the input iff there are more runes than a positive limit, and a second application changes nothing |
| Utf8.DecodeEncode | backend/internal/validate/sanitize.go:132-137 | the decoder behind the range loop recognises the encoding of every scalar value, whatever follows it |
| Utf8.EncodeDecode | backend/internal/validate/sanitize.go:132-137 | anything the decoder does not treat as a stray byte is the encoding of a scalar value |
| Utf8.RunesConcat | backend/internal/validate/sanitize.go:137 | decoding resynchronises at every byte that is not a continuation byte |
| Text.TrimSpaceTrims | backend/internal/validate/validator.go:167 | trimming leaves no Unicode white space at either end, in any byte string |
| Text.TrimSpaceExactly | backend/internal/validate/validator.go:167 | trimming takes runes of white space off both ends and nothing else, and its result is the only string without white space at its ends that is obtained that way |
| Text.BoundedIsExact | backend/internal/validate/validator.go:166-172 | a bounded value is a prefix of the trimmed input with exactly as many of its runes as fit, and does not start with a space |
| Text.BoundedStabilises | backend/internal/validate/validator.go:166-172 | from the second application on a bounded value is fixed, trimmed and within the limit; the first one is already fixed iff the trimmed input has at most `limit` runes or its rune number `limit` is no space |
| Text.BoundedOnceIsNotFixed | backend/internal/validate/validator.go:166-172 | the input `a b` with limit 2 needs the second application |
| Decimal.IsDigits | backend/internal/validate/sanitize.go:165-175 | the loop over runes accepts exactly the non-empty strings of ASCII digit bytes, also among invalid UTF-8 |
| Decimal.IsUpperAlpha | backend/internal/validate/sanitize.go:152-162 | true iff the string is exactly n upper-case ASCII letters |
| Decimal.CheckDecimal | backend/internal/validate/sanitize.go:184-201 | the checks in the source's order decide the specification predicate |
| Decimal.FitsDecimalExact | backend/internal/validate/sanitize.go:177-201 | for all precision >= scale >= 0, a string fits iff it spells -?digits(.digits)? with at most `scale` decimals and its absolute value times 10^scale is below 10^precision |
| Decimal.NoRoomForScale | backend/internal/validate/sanitize.go:200 | with precision below scale nothing fits |
| Decimal.DigitCount | backend/internal/validate/sanitize.go:200 | counting the digits after the leading zeros decides whether a number is below a power of ten |
| Decimal.SignAndZerosAreFree | backend/internal/validate/sanitize.go:185-200 | neither the sign nor any number of leading zeros changes the verdict |
| Query.UnescapeEscape | backend/internal/validate/sanitize.go:105-114 | escaping and unescaping a query component gives back every byte string |
| Query.UnescapeExactly | backend/internal/validate/sanitize.go:105-114 | a text stands for a byte string iff it spells it byte by byte: as it is, as a plus sign, or by its two hexadecimal digits in either case |
| Query.EscapeSpells | backend/internal/validate/sanitize.go:114 | what is printed spells every byte: letters, digits and `-_.~` as they are, a space as a plus sign, any other with upper-case digits |
| Query.ParseSegmentExactly | backend/internal/validate/sanitize.go:105 | a segment spells a parameter iff it is not empty, holds no semicolon, and the texts before and after its first `=` stand for name and value |
| Query.ParsePrintedParams | backend/internal/validate/sanitize.go:105-114 | printing any list of parameters and parsing it gives back the list, in order |
| Query.ParseEncode | backend/internal/validate/sanitize.go:105-114 | printing any map of names to non-empty value lists, names sorted, and parsing it gives back the map |
| Query.PrintValues | backend/internal/validate/sanitize.go:114 | collecting the names in any order and sorting them prints one and the same query |
| Query.EncodedIsSorted | backend/internal/validate/sanitize.go:114 | a printed query has its parameters grouped by name, the names in increasing order |
| Ordering.SortForgetsOrder | backend/internal/config/expand.go:63 | the sorted arrangement depends only on how often each string occurs |
| Ordering.LeqExactly | backend/internal/config/expand.go:63 | the order is the byte-wise one: a prefix comes first, otherwise the smaller byte at the first difference |
| Denylist.NewDenylist | backend/internal/validate/sanitize.go:44-55 | the set is the built-in floor plus the trimmed, lower-cased configured names without blanks |
| Denylist.DeniedExactly | backend/internal/validate/sanitize.go:44-61 | a name is denied iff its lower-cased form is a built-in or that of a configured name; so the floor holds for every configuration |
| Denylist.FloorIsDenied | backend/internal/validate/sanitize.go:9-35 | each of the thirteen built-in names is denied for every configuration, in every spelling that folds to it |
| Denylist.MoreNamesDenyMore | backend/internal/validate/sanitize.go:49-61 | configuring more names denies more; denylists of the same names are equal, whatever their order and repetitions |
| Sanitize.DeleteDenied | backend/internal/validate/sanitize.go:105-112 | deleting while ranging gives, for every iteration order, the restriction to the names that are not denied, and `removed` iff some name was |
| Sanitize.StripFrom | backend/internal/validate/sanitize.go:89-123 | every branch computes the specification's output and flag |
| Sanitize.StrippedExactly | backend/internal/validate/sanitize.go:89-123 | for every URL, from its text: stripped iff it parses and has a fragment or is printed anew, or does not parse and holds a `#`; what is not stripped is kept; what is, comes out as its printed prefix, its question mark if any, and its query, or as what precedes the `#` |
| Sanitize.StripKeepsMeaning | backend/internal/validate/sanitize.go:101-122 | for a URL that parses, the library reads the output as the same prefix, no fragment, and the original parameters without the denied ones, values in their order; so a query printed anew stays within the library's bound |
| Sanitize.StripSettles | backend/internal/validate/sanitize.go:89-123 | for every URL: a second pass returns the first output unchanged with flag false, iff the URL parses or what precedes its `#` would not be printed anew |
| Sanitize.StrippedIsExact | backend/internal/validate/sanitize.go:89-123 | in all branches the flag is true iff the output differs from the input |
| Reading.CarriedUnlessRebuilt | backend/internal/validate/sanitize.go:89-123 | for every URL: the query text of the output carries no denied name, skipped segments and semicolon pieces included, iff the query is printed anew or the text carried none |
| Reading.ShownUnlessRebuilt | backend/internal/validate/sanitize.go:71-123 | for every value, over all limits: what is stored shows no value behind a denied name iff the query is printed anew or the trimmed text showed none |
| Reading.FoundUnlessRebuilt | backend/internal/validate/sanitize.go:89-123 | the same equivalence for any reading of segments that agrees with the parser on the segments it accepts |
| Reading.FoundAfterCut | backend/internal/validate/sanitize.go:71-80 | and after the cut, over all limits, for any such reading that finds no more in a segment cut short |
| Reading.ParserFindsLess | backend/internal/validate/sanitize.go:105-112 | a text that carries no denied name parses to no denied parameter, and one that shows none exposes none to a cut |
| Reading.SkippedIsKept | backend/internal/validate/sanitize.go:104-120 | every clean single segment that the parser skips and that shows a denied name is stored verbatim, flag false |
| Reading.LeadingSemicolonIsKept | backend/internal/validate/sanitize.go:104-120 | for every denied name, `/?name=;ab` is stored verbatim although the parser finds no value behind the name at any limit |
| Reading.BrokenValueIsKept | backend/internal/validate/sanitize.go:104-120 | for every denied name, `/?name=ab%` is stored verbatim although the parser skips it |
| Sanitize.StrippedIffRead | backend/internal/validate/sanitize.go:89-123 | for every URL: the parser finds no denied parameter in the output's query iff the URL parses within the library's bound or it found none in the input's |
| Sanitize.StrippedUnlessFragmentBroken | backend/internal/validate/sanitize.go:89-99 | if what precedes the `#` parses: the parser finds a denied parameter in the output iff it finds one in the input and the fragment holds a broken escape or the query is beyond the bound |
| Sanitize.CrowdedQueryKeepsDenied | backend/internal/validate/sanitize.go:104-112 | for every denied name and bound, a query with that many separators before `name=value` parses and is kept verbatim |
| Sanitize.BrokenPrefixKeepsDenied | backend/internal/validate/sanitize.go:91-99 | for every denied name, `/%?name=value` comes out verbatim, flag false, with its parameter |
| Sanitize.BrokenFragmentKeepsDenied | backend/internal/validate/sanitize.go:91-97 | for every denied name, `/?name=value#%` comes out with its parameter |
| Sanitize.NoFragmentIsLeft | backend/internal/validate/sanitize.go:71-123 | parsed, verbatim, unparseable or cut: a `#` can only be the very last byte, and there is none after stripping |
| Sanitize.SanitizeUrl | backend/internal/validate/sanitize.go:71-80 | trims, strips and cuts as specified, with both flags |
| Sanitize.SanitizedExactly | backend/internal/validate/sanitize.go:71-80 | blank text gives nothing; any other is trimmed, stripped, and keeps exactly as many runes as fit, with each flag iff that step changed something |
| CutSafety.CutAfterStripIsSafe | backend/internal/validate/sanitize.go:71-80 | for every URL, parsed or not: stripped and cut, the parser finds no denied parameter beyond a bare last name at any limit, iff the query is printed anew, or the input has none and no skipped segment that exposes one |
| CutSafety.ParsedIsCutSafe | backend/internal/validate/sanitize.go:71-80 | for a URL that parses, that condition is: within the bound, the parser finds a denied parameter or no segment exposes one; beyond it, there is neither |
| CutSafety.CutsAreSafe | backend/internal/validate/sanitize.go:76-78 | for the cut alone and any URL: no limit leaves a denied parameter iff the URL has and exposes none |
| CutSafety.NamedIsReturnedOrBare | backend/internal/validate/sanitize.go:76-78 | the parsed query of a URL names no denied parameter iff it has none with a value or before the last segment, and does not end in a bare denied name |
| CutSafety.CutIsSafeWhenWellFormed | backend/internal/validate/sanitize.go:71-80 | when all segments are well formed and within the bound, or had nothing denied, or something was removed, a denied name in the cut query can only be the last segment, with an empty value |
| CutSafety.SemicolonReturns | backend/internal/validate/sanitize.go:71-80 | for every denied name, `/?name=ab;` is left verbatim and some limit makes it name the parameter with a value |
| CutSafety.SanitizedIsSafe | backend/internal/validate/sanitize.go:71-80 | the same equivalence for the value as it is stored, over all limits: the condition is on the trimmed input |
| CutPoint.ReturnsExactlyAt | backend/internal/validate/sanitize.go:76-78 | for one limit and any URL: the parser finds a denied parameter after the cut iff some segment names one and the next has begun, or the cut falls in its value where what remains can be read |
| CutPoint.StrippedReturnsAt | backend/internal/validate/sanitize.go:71-80 | for one limit after stripping: never when the query is printed anew, otherwise decided like this by the segments that came in and the bytes of them that remain |
| Json.CompactDropsOnlyWhite | backend/internal/validate/rules.go:263-271 | what is stored of valid text is the text without the white space outside its string literals, which are kept byte for byte |
| Json.CompactSettles | backend/internal/validate/rules.go:263-271 | what is stored is valid and compacts to itself |
| Json.InsignificantWhite | backend/internal/validate/rules.go:263-271 | one byte of white space put between tokens changes neither validity nor the stored bytes |
| Json.RespacingIsInvisible | backend/internal/validate/rules.go:263-271 | texts linked by any number of such bytes put in and taken out are both valid or both not, and store identical bytes |
| Json.StoredAlike | backend/internal/validate/rules.go:263-271 | two valid texts store identical bytes iff they agree up to white space outside their string literals |
| Json.Compact | backend/internal/validate/rules.go:266-269 | compaction is never longer than its input |
| JsonGrammar.CompactExactly | backend/internal/validate/rules.go:266-271 | a text is stored iff it is one of the grammar of RFC 8259 nested at most 10000 deep, and then as the same value without its white space |
| JsonGrammar.GrammarIsAccepted | backend/internal/validate/rules.go:266-271 | every text of the grammar within that depth is accepted, and stored without its white space |
| JsonGrammar.AcceptedIsGrammar | backend/internal/validate/rules.go:266-271 | every accepted text is one of the grammar within that depth |
| Limits.WithDefaults | backend/internal/validate/limits.go:83-109 | every bound is positive afterwards; a positive one is kept, any other takes its default |
| Limits.UnsetIsShipped | backend/internal/validate/limits.go:58-74 | each bound that is not positive becomes the shipped one of its own name |
| Rules.RefusalIsSilent | backend/internal/validate/rules.go:53-273 | a rule that refuses an event reports no repair |
| Columns.ReasonExactly | backend/internal/validate/rules.go:38-273 | the reason of a refusal is that of the first of these to fail: a name, its charset and length, the id, the time, the revenue, the size of the properties, their being an object; an event that fails none is accepted |
| Columns.StoresExactly | backend/internal/validate/rules.go:53-273 | every column of an accepted event from the field it was sent in: a blank or skewed time, a blank id, codes in either case, each device name, texts trimmed and cut, the object without white space |
| Columns.ReportsExactly | backend/internal/validate/rules.go:77-238 | the reports of an accepted event are, in the order of the columns, exactly the repairs by which the row differs from what was sent |
| Pipeline.RuleIsIndependent | backend/internal/validate/rules.go:53-273 | each rule writes only the columns it owns, and what it writes does not depend on the row |
| Pipeline.RunAccepts | backend/internal/validate/validator.go:156-162 | a run accepts iff each of its rules does by itself, and then each column comes from the rule that owns it |
| Pipeline.OrderDoesNotMatter | backend/internal/validate/validator.go:156-162 | any two arrangements of independent rules accept the same events and build the same row |
| Pipeline.RuleOrderDoesNotMatter | backend/internal/validate/rules.go:38-49 | for a fixed clock and id, any permutation of the pipeline accepts the same events and stores the same row |
| Pipeline.RunStopsAtFirst | backend/internal/validate/validator.go:156-160 | a run reports exactly the repairs of the rules before the first that refuses, in order, and is refused for that rule's reason |
| Pipeline.AcceptedIsSettled | backend/internal/validate/validator.go:155-162 | every rule passed an accepted event, and would write its row again unchanged |
| Pipeline.AcceptedMeetsColumns | backend/internal/validate/rules.go:53-273 | every accepted event meets every column's bound: name, time window, rune limits, codes, device set, revenue as an exact decimal, properties as a compact object, site id |
| Pipeline.ConformingIsStoredAsSent | backend/internal/validate/rules.go:53-273 | an event whose every field already has the shape of its column is accepted, reports nothing, and is stored exactly as sent, each field in its own column |
| Pipeline.PropertiesWithinLimit | backend/internal/validate/rules.go:245-272 | the stored properties of accepted events are within their limit iff the limit is at least two |
| Pipeline.SpellingsDiffer | backend/internal/validate/rules.go:245-272 | two spellings that would be stored alike get different verdicts iff exactly one exceeds the limit before compaction |
| Pipeline.SomeSpellingIsAccepted | backend/internal/validate/rules.go:245-272 | some spelling of an object is accepted iff its compact form is within the limit or is the empty object |
| Pipeline.PaddingIsRefused | backend/internal/validate/rules.go:252-272 | every accepted object has a spelling that would be stored alike and is refused as too large |
| Batch.NothingIsLost | backend/internal/validate/validator.go:126-138 | accepted plus rejected is the number of events; the rejected indexes are in range, strictly increasing, and those of refused events with their reasons |
| Batch.AnswerExactly | backend/internal/validate/validator.go:116-125 | processed iff the key has a site, the body names no other, and there are events but not too many; refused with the error of the first of these to fail |
| Batch.AnswerIsComplete | backend/internal/validate/validator.go:126-138 | interleaving the two lists by the rejected indexes gives back what became of each event |
| Batch.EventIsAnswered | backend/internal/validate/validator.go:126-138 | of a processed request, each event is checked with its own clock and id; a refused or malformed one is listed with its index and reason, an accepted one's row stands after those accepted before it |
| Batch.BatchesCompose | backend/internal/validate/validator.go:116-139 | validating two batches at once is validating each alone, with accepted lists and traces following each other and the second's indexes shifted |
| Batch.EventTraceIsExact | backend/internal/validate/validator.go:128-162 | the trace of one event is the repairs of the rules before the first refusal, then one rejection with its reason if there is one |
| Batch.AnswerMeetsColumns | backend/internal/validate/validator.go:116-139 | every accepted row of every answer belongs to the key's site and meets every column's bound |
| Validator.Validator.constructor | backend/internal/validate/validator.go:77-99 | for any limits passed, zero and negative included, every bound is positive; the denylist contains the floor |
| Validator.Validator.Bounded | backend/internal/validate/validator.go:166-172 | returns the bounded value and reports a truncation iff there was one |
| Validator.Validator.CleanUrl | backend/internal/validate/validator.go:176-185 | returns the sanitised URL and reports stripping and truncation, in that order, iff they happened |
| Validator.Validator.CheckEventName | backend/internal/validate/rules.go:53-68 | missing, invalid or kept, writing only the name |
| Validator.Validator.CheckEventId | backend/internal/validate/rules.go:77-95 | a blank id is replaced and reported, a malformed one refused, writing only the id |
| Validator.Validator.CheckTimestamp | backend/internal/validate/rules.go:103-133 | defaulted, refused, corrected to the server clock with the direction reported, or kept, writing only the time |
| Validator.Validator.CheckIdentity | backend/internal/validate/rules.go:139-147 | both identifiers bounded, in order |
| Validator.Validator.StepPage | backend/internal/validate/rules.go:150-153 | the page is the sanitised URL, nothing else is written |
| Validator.Validator.StepReferrer | backend/internal/validate/rules.go:161-164 | the referrer is sanitised with the same denylist |
| Validator.Validator.CheckUtm | backend/internal/validate/rules.go:167-172 | the three labels bounded, in order |
| Validator.Validator.CheckAudience | backend/internal/validate/rules.go:180-205 | country, city, device, os and browser, with their repairs in this order |
| Validator.Validator.CheckCommerce | backend/internal/validate/rules.go:213-238 | a revenue that does not fit refuses the event and writes nothing; otherwise it is kept verbatim, and the currency is a code or the default |
| Validator.Validator.CheckProperties | backend/internal/validate/rules.go:245-273 | empty, too large, not an object, not valid, or stored compact, in this order of checks |
| Validator.Validator.ApplyRule | backend/internal/validate/rules.go:33-49 | each rule, run in place, gives its verdict, appends its repairs and turns the row into the specified one; a refused event leaves the row alone |
| Validator.Validator.Run | backend/internal/validate/validator.go:155-162 | the loop over the rules, in whatever order they are given, is the specified run |
| Validator.Validator.ValidateOne | backend/internal/validate/validator.go:146-163 | a malformed event costs only itself; otherwise the pipeline decides |
| StoredUrls.AcceptedUrlsAreClean | backend/internal/validate/rules.go:150-164 | page and referrer of every accepted event hold a `#` at most as their last byte, and show a denied value only if the text sent did and was not printed anew |
| StoredUrls.AnswerUrlsAreClean | backend/internal/validate/validator.go:116-139 | the same for the rows of every answer, each against an event of the request |
| Validator.Validator.Validate | backend/internal/validate/validator.go:116-139 | the answer and the observer's trace are exactly the specified ones; when it is processed and with which error it is refused otherwise, from the arguments alone; a refused request reports nothing; and every accepted row belongs to the key's site and meets every column's bound |
| Expand.MatchIsPlaceholder | backend/internal/config/expand.go:15 | whatever the scanner finds is a word of the pattern's language |
| Expand.PlaceholderIsMatch | backend/internal/config/expand.go:15 | every word of the language is found, whatever follows it; so at most one placeholder starts at any position |
| Expand.MarkMeansFallback | backend/internal/config/expand.go:33-34 | `:-` occurs in a match iff the fallback group took part |
| Expand.DecompositionIsUnique | backend/internal/config/expand.go:26-40 | every string splits in exactly one way into leftmost placeholders and bytes at which none starts |
| Expand.PlaceholderExpands | backend/internal/config/expand.go:26-40 | a placeholder stands for its variable, fallback or not; for its fallback when the variable is unset; otherwise for nothing and one missing entry; what is inserted is not scanned again, and what follows is expanded as if it stood alone |
| Expand.LiteralsAreCopied | backend/internal/config/expand.go:26-40 | text in which no placeholder starts is copied byte for byte |
| Expand.ResolveMatch | backend/internal/config/expand.go:27-39 | decided on the match alone: the variable, else the written fallback, else empty and missing |
| Expand.ExpandString | backend/internal/config/expand.go:26-40 | the left-to-right scan renders the unique decomposition and collects what is missing in order |
| Expand.Config.ExpandItems | backend/internal/config/expand.go:48-57 | a list is filled element by element; what is not a string is printed |
| Expand.Config.ExpandEnvVars | backend/internal/config/expand.go:23-68 | for every order of the keys, the new configuration is a function of the old one, and the error is the sorted list of what is missing, if anything is |
| Expand.KeyOrderDoesNotMatter | backend/internal/config/expand.go:42-67 | the sorted missing list is the same for every order of the keys |
| Expand.FailsIffLacking | backend/internal/config/expand.go:62-66 | something is missing iff some string of the configuration holds a placeholder without fallback whose variable is unset |
| Expand.MissingExactly | backend/internal/config/expand.go:26-40 | the missing entries are exactly those of the placeholders without fallback whose variable is unset, each with its name and the key it stands under |
| Expand.EntryText | backend/internal/config/expand.go:37 | an entry reads `name (required by key)` |
| Expand.SettingsExpandInPlace | backend/internal/config/expand.go:42-60 | strings are expanded, lists element by element with what is no string printed, and nothing else changes |

## Left out

- HTTP, routing, middleware, logging, metrics and process start-up: input and output around the model.
- Configuration file lookup, YAML decoding and the per-section checks: file access and single comparisons.
- Scheme, authority and path of a URL: opaque, with the assumption stated above.
- Unicode case tables: lower and upper case are arbitrary functions.
- JSON decoding of an event, UUID and RFC 3339 parsing: arbitrary functions.
- Concurrent use of one validator: the validator is immutable, and calls of one request are ordered.
- Machine integers: bounds and lengths are unbounded integers; limits near the largest machine integer would overflow in the source's sum of digits and scale.
- Nested keys of the configuration store: keys are independent of each other, as the leaf keys it lists are.
- The wording of errors: an expansion error is its sorted list of entries, a request error one of three cases.
