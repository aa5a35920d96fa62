# Bulk WhatsApp QR-code generator: a Dafny model

The app is a two-screen React page.

- The **setup form** (`components/SetupForm.tsx`, `handleGenerate`) takes a business name, a WhatsApp number and a set of table labels. The labels are either `prefix 1 … prefix N` or the non-blank lines of a list. It validates the input and builds one code per label. Each code is a `wa.me` click-to-chat link whose `text` parameter is the message template with `{table}` and `{business}` filled in.
- The **results screen** (`components/ResultsScreen.tsx`) draws every code into a canvas. The canvas id is `qr-canvas-<slug of the label>`. The screen saves one PNG per card, or all of them in `qr-codes.zip`. Both kinds of export find the canvases by that id and name the files `<slug>.png`.
- **App** (`App.tsx`) holds the generated list, or null. It shows the results screen exactly when a list is held.

The business name and the table prefix are used as typed, not trimmed, so a name of spaces passes. Files are named `<slug of label>.png` and the archive `qr-codes.zip`, without the business name.

The model is split into modules.

- `Outcomes`: `Option` and `Result`.
- `Types`: the input method and a generated code.
- `JsString`: the JavaScript built-ins the core relies on. These are `trim`, `split`, `toLowerCase`, `indexOf`, `String.prototype.replace` with a string pattern (including its `$` substitution patterns), `parseInt(…, 10)` and number-to-decimal.
- `Uri`: `encodeURIComponent` over UTF-8, with a strict decoder as its partner.
- `Link`: the message template and the link, with a link parser as the partner.
- `SetupForm`: `handleGenerate`.
- `Slug`: `slugify` as its five regular-expression replacements.
- `Occurrences`: first occurrences, key sets and distinctness of a sequence of keys.
- `ResultsScreen`: the page, `getElementById`, Save and Save-All.
- `App`: the screen state as a state machine over user actions.

The page is a sequence of canvases in card order. A canvas is modelled by its id and the link its symbol encodes; the picture is a function of that link. `getElementById` returns the first canvas carrying the id. Rendering the symbol, PNG and base64 encoding, and the zip format are left out.

## Model

| member | source | states |
|---|---|---|
| SetupForm.HandleGenerate | components/SetupForm.tsx:23-71 | an empty name or number gives exactly the "required" error; success happens exactly when the contact is valid and the chosen mode yields labels; on success there is one code per label, in label order, and at least one |
| SetupForm.PhoneValidation | components/SetupForm.tsx:31-35 | once both fields are present, the number is rejected exactly when it has fewer than seven digits |
| SetupForm.WhitespaceNameAccepted | components/SetupForm.tsx:26-29 | the required-field check does not trim, so a name of spaces passes it |
| SetupForm.CleanNumber | components/SetupForm.tsx:31 | the cleaned number is all digits and no longer than the input |
| SetupForm.CleanNumberAppend | components/SetupForm.tsx:31 | cleaning distributes over concatenation |
| SetupForm.CleanNumberFour | components/SetupForm.tsx:31 | cleaning four concatenated pieces gives the four cleaned pieces concatenated |
| SetupForm.CleanNumberChar | components/SetupForm.tsx:31 | one character is kept exactly when it is a digit |
| SetupForm.CleanNumberOfDigits | components/SetupForm.tsx:31 | a string of digits is left unchanged |
| SetupForm.CleanNumberIdempotent | components/SetupForm.tsx:31 | cleaning twice is cleaning once |
| SetupForm.CleanNumberExample | components/SetupForm.tsx:31 | `+1 (234) 567-8901` cleans to `12345678901` |
| SetupForm.SimpleLabels | components/SetupForm.tsx:45-46 | exactly `count` labels, the i-th being the prefix, a space and i+1 in decimal |
| SetupForm.SimpleLabelsNumbered | components/SetupForm.tsx:45-46 | the number in each label parses back to its position, and the labels are pairwise different |
| SetupForm.SimpleModeResult | components/SetupForm.tsx:39-52 | an unparsable or non-positive count is rejected; otherwise there are exactly `count` codes labelled `prefix 1` to `prefix count` |
| SetupForm.KeepLabels | components/SetupForm.tsx:54 | at most one label per line; every label is non-empty and trimmed |
| SetupForm.KeepLabelsAppend | components/SetupForm.tsx:54 | the filter-and-trim step distributes over concatenation of line lists |
| SetupForm.KeepLabelsOne | components/SetupForm.tsx:54 | a single line is dropped exactly when it is all whitespace |
| SetupForm.ListLabels | components/SetupForm.tsx:54 | list labels are non-empty, trimmed, and contain no newline |
| SetupForm.KeepLabelsNoNewline | components/SetupForm.tsx:54 | labels taken from newline-free lines are newline-free |
| SetupForm.TrimIsSlice | components/SetupForm.tsx:61 | every character of a trimmed label comes from the line |
| SetupForm.ListModeResult | components/SetupForm.tsx:53-65 | no non-blank line gives exactly the "no labels" error; otherwise there is one code per non-blank line, trimmed, in order |
| SetupForm.ListExample | components/SetupForm.tsx:54 | `Patio - Booth 5`, blank, `Bar Seat 1`, spaces gives exactly the two labels |
| SetupForm.TableLabels | components/SetupForm.tsx:39-58 | a mode that yields labels yields at least one; each mode fails with its own error |
| SetupForm.BuildCodes | components/SetupForm.tsx:45-52 | one code per label, in label order, each carrying its own label |
| SetupForm.BuildCodesParse | components/SetupForm.tsx:47-51 | every code's link parses back to the cleaned number and to the template filled with that code's label |
| SetupForm.GeneratedLinks | components/SetupForm.tsx:59-64 | every successfully generated code's link carries the cleaned number and its own label's message |
| SetupForm.Submit | components/SetupForm.tsx:68-70 | `onGenerate` receives the codes exactly when generation succeeded; the non-empty guard never rejects a success |
| JsString.TrimStart | components/SetupForm.tsx:54 | the result is a suffix of the input; what was removed is whitespace; the result does not start with whitespace |
| JsString.TrimStartIsSuffix | components/SetupForm.tsx:54 | what `trimStart` keeps is the end of the input |
| JsString.TrimEnd | components/SetupForm.tsx:54 | the result is a prefix of the input; what was removed is whitespace; the result does not end with whitespace |
| JsString.Trim | components/SetupForm.tsx:54 | the result is a slice of the input with only whitespace around it, is itself trimmed, and is empty exactly for all-whitespace input |
| JsString.TrimBounds | components/SetupForm.tsx:54 | trimming the start and then the end cuts out a slice with whitespace on both sides, and is empty exactly for all-whitespace input |
| JsString.TrimEmpty | components/SetupForm.tsx:54 | trimming gives the empty string exactly when the input is all whitespace |
| JsString.TrimOfTrimmed | components/SetupForm.tsx:61 | trimming a trimmed string changes nothing |
| JsString.TrimIdempotent | components/SetupForm.tsx:61 | trimming twice is trimming once |
| JsString.Split | components/SetupForm.tsx:54 | at least one piece; no piece contains the separator; joining the pieces gives the input back |
| JsString.SplitNoSeparator | components/SetupForm.tsx:54 | text without the separator splits into itself |
| JsString.SplitAtFirst | components/SetupForm.tsx:54 | splitting at the first separator gives the first piece, then the split of the rest |
| JsString.SplitJoin | components/SetupForm.tsx:54 | splitting a join of separator-free pieces gives the pieces back |
| JsString.ToLowerCase | components/ResultsScreen.tsx:24 | no ASCII capital remains; the result is never shorter; ASCII input is lowered letter by letter |
| JsString.IndexOf | components/SetupForm.tsx:47-49 | the position found is the first occurrence of the pattern; there is none exactly when the pattern does not occur |
| JsString.IndexOfFrom | components/SetupForm.tsx:47-49 | the first occurrence at or after a start position |
| JsString.SubstitutionPlain | components/SetupForm.tsx:48-49 | a replacement without `$` is inserted verbatim |
| JsString.Replace | components/SetupForm.tsx:47-49 | text without the pattern is left unchanged |
| JsString.ReplaceFirst | components/SetupForm.tsx:47-49 | only the first occurrence is replaced, by the replacement string |
| JsString.Decimal | components/SetupForm.tsx:46 | the decimal digits of a number, with no leading zero, whose value is the number |
| JsString.DecimalInjective | components/SetupForm.tsx:46 | different numbers have different decimals |
| JsString.LeadingDigits | components/SetupForm.tsx:40 | the longest run of digits at the front |
| JsString.LeadingDigitsOf | components/SetupForm.tsx:40 | the digit run before a non-digit is exactly that run |
| JsString.ParseInt | components/SetupForm.tsx:40-41 | NaN exactly when no digit follows the optional sign after leading whitespace; the sign decides the sign of the result |
| JsString.ParseIntDecimal | components/SetupForm.tsx:40 | a decimal followed by a non-digit parses back to its number |
| JsString.ParseIntValue | components/SetupForm.tsx:40-41 | whitespace, an optional `+` or `-`, leading zeros and a decimal followed by a non-digit parse to the decimal's value, negated exactly for `-` |
| JsString.ParseIntPadded | components/SetupForm.tsx:40-41 | whitespace, an optional `+` or `-`, digits and a non-digit parse to the digits' value, negated exactly for `-` |
| JsString.ParseIntSkipsWhitespace | components/SetupForm.tsx:40 | leading whitespace does not change the parsed value |
| JsString.ParseIntSigned | components/SetupForm.tsx:40 | a sign, digits and a non-digit parse to the digits' value, negated exactly for `-` |
| JsString.TrimStartSkips | components/SetupForm.tsx:40 | skipping leading whitespace removes exactly the whitespace prefix |
| JsString.ZerosValue | components/SetupForm.tsx:40 | leading zeros do not change the value of a digit string |
| JsString.LowerAppend | components/ResultsScreen.tsx:24 | lowering distributes over concatenation |
| Uri.Utf8 | components/SetupForm.tsx:50 | one to four bytes, one exactly for ASCII, with continuation bytes after the first |
| Uri.HexValue | components/SetupForm.tsx:50 | a hexadecimal digit's value is below 16 |
| Uri.PercentEncode | components/SetupForm.tsx:50 | `%` and two hexadecimal digits holding the byte's high and low halves |
| Uri.PercentEncodeAllShape | components/SetupForm.tsx:50 | three characters per byte, all of them `%` or unreserved |
| Uri.EncodeCharShape | components/SetupForm.tsx:50 | one character encodes to unreserved characters and `%` only |
| Uri.EncodeUriComponent | components/SetupForm.tsx:50 | only unreserved characters and `%` come out; the output is never shorter; unreserved text is left unchanged |
| Uri.DecodeScalar | components/SetupForm.tsx:50 | the decoder consumes at least one byte and no more than there are |
| Uri.DecodeScalarUtf8 | components/SetupForm.tsx:50 | decoding a character's UTF-8 bytes gives the character and its length |
| Uri.Utf8RoundTrip | components/SetupForm.tsx:50 | UTF-8 decoding inverts UTF-8 encoding |
| Uri.PercentDecodeByte | components/SetupForm.tsx:50 | one percent-encoded byte decodes back to that byte |
| Uri.PercentDecodeEncodeChar | components/SetupForm.tsx:50 | one encoded character decodes back to its UTF-8 bytes |
| Uri.PercentDecodeEncodeAll | components/SetupForm.tsx:50 | percent-encoded bytes decode back to those bytes |
| Uri.PercentDecodeEncode | components/SetupForm.tsx:50 | percent-decoding an encoded string gives its UTF-8 bytes |
| Uri.UriRoundTrip | components/SetupForm.tsx:50 | decodeURIComponent inverts encodeURIComponent |
| Uri.EncodeUriComponentInjective | components/SetupForm.tsx:50 | different messages give different encoded texts |
| Link.LinkRoundTrip | components/SetupForm.tsx:50 | a link parses back to exactly its number and its message |
| Link.LinkQueryIsSafe | components/SetupForm.tsx:50 | no `?`, `&`, `#` or space follows `?text=`, so the message cannot break the query |
| Link.NoBraceNoToken | components/SetupForm.tsx:47-49 | a placeholder cannot occur starting inside text without `{` |
| Link.NoBraceNoContains | components/SetupForm.tsx:47-49 | text without `{` contains no placeholder |
| Link.MessageWithoutTokens | components/SetupForm.tsx:47-49 | a template without placeholders is sent as it is |
| Link.ReplaceToken | components/SetupForm.tsx:47-49 | in text whose first `{` starts the pattern, the pattern is replaced there and the rest is left alone |
| Link.NoTokensLeft | components/SetupForm.tsx:47-49 | text assembled from `{`-free parts contains neither placeholder |
| Link.MessageReplacesFirstTableOnly | components/SetupForm.tsx:48 | `{table}` is replaced by the label at its first occurrence, and the rest is left as it was |
| Link.MessageTableThenBusiness | components/SetupForm.tsx:47-49 | a template with `{table}` before `{business}` and no other `{`, and a label and a name with neither `{` nor `$`, gets the label and the name in place, and no placeholder is left |
| Link.MessageBusinessThenTable | components/SetupForm.tsx:47-49 | the same holds with `{business}` first, under the same conditions |
| Link.TableAfterBusiness | components/SetupForm.tsx:48 | with `{business}` first, the first `{table}` is the one after it |
| Link.LabelTokenExpanded | components/SetupForm.tsx:47-49 | a label starting with `{business}` receives the name, and the template's own `{business}` stays in the message |
| Link.PlaceholderInLabel | components/SetupForm.tsx:47-49 | label `{business} VIP`, template `At {table} of {business}` and name `Cafe` give `At Cafe VIP of {business}` |
| Link.FillSkips | components/SetupForm.tsx:47-49 | filling copies text without `{` through unchanged |
| Link.FillDone | components/SetupForm.tsx:47-49 | once both placeholders are filled, the rest of the template is copied |
| Link.CorrectedTableThenBusiness | components/SetupForm.tsx:47-49 | filling the template's own placeholders puts the label and the name in place, whatever they contain |
| Link.CorrectedBusinessThenTable | components/SetupForm.tsx:47-49 | the same with `{business}` first |
| Link.CorrectedAgrees | components/SetupForm.tsx:47-49 | when the label and the name hold no `{` or `$`, the two `replace` calls give the intended message |
| Link.CorrectedPlaceholderInLabel | components/SetupForm.tsx:47-49 | the intended message for that input is `At {business} VIP of Cafe` |
| Link.BusinessThenTableFirstStep | components/SetupForm.tsx:48 | with `{business}` before `{table}`, replacing `{table}` leaves `{business}` and the text before it in place |
| Slug.Slugify | components/ResultsScreen.tsx:23-30 | every slug is lower-case letters, digits, `_` and `-` only, with no `-` at either end and never `--` |
| Slug.SlugifyWhitespaceRun | components/ResultsScreen.tsx:23-30 | two texts with non-empty slugs joined by any whitespace run slug to their two slugs joined by exactly one `-` |
| Slug.TidyJoin | components/ResultsScreen.tsx:27-29 | collapsing and stripping two texts joined by a run of `-` gives their two results joined by one `-` |
| Slug.HyphenateAppend | components/ResultsScreen.tsx:25 | hyphenating distributes over a split that does not fall inside a whitespace run |
| Slug.HyphenateRun | components/ResultsScreen.tsx:25 | a whole whitespace run becomes exactly one `-`, and both sides are hyphenated on their own |
| Slug.DeleteAllNonWord | components/ResultsScreen.tsx:26 | text with no word character and no `-` is deleted entirely |
| Slug.DeleteRun | components/ResultsScreen.tsx:26 | characters that are neither word characters nor `-` are deleted wherever they stand |
| Slug.CollapseAppend | components/ResultsScreen.tsx:27 | collapsing distributes over a split that does not fall inside a `-` run |
| Slug.CollapseRun | components/ResultsScreen.tsx:27 | a whole run of `-` becomes exactly one `-`, and both sides are collapsed on their own |
| Slug.SlugKeepsWordChars | components/ResultsScreen.tsx:23-30 | a slug keeps exactly the lowered text's letters, digits and underscores, in order |
| Slug.SlugEmptyIff | components/ResultsScreen.tsx:23-30 | the slug is empty exactly when the lowered text has no letter, digit or underscore |
| Slug.SlugOfSlug | components/ResultsScreen.tsx:23-30 | a string in slug form is its own slug |
| Slug.SlugifyIdempotent | components/ResultsScreen.tsx:23-30 | slugifying a slug changes nothing |
| Slug.PunctuationSlugIsEmpty | components/ResultsScreen.tsx:23-30 | a label of punctuation and spaces slugifies to the empty string |
| Slug.SlugCollision | components/ResultsScreen.tsx:23-30 | `Table #1` and `Table 1` are different labels with the same slug, `table-1` |
| Slug.CapitalisedHashSlug | components/ResultsScreen.tsx:23-30 | a capitalised word, ` #` and digits slugify to the lowered word, `-` and the digits |
| Slug.CapitalisedSpaceSlug | components/ResultsScreen.tsx:23-30 | a capitalised word, a space and digits slugify to the lowered word, `-` and the digits |
| Slug.WordChars | components/ResultsScreen.tsx:26 | the word characters of a string are all word characters |
| Slug.WordCharsAppend | components/ResultsScreen.tsx:26 | taking word characters distributes over concatenation |
| Slug.HyphenateWhitespace | components/ResultsScreen.tsx:25 | no whitespace remains and the text never grows |
| Slug.HyphenateNoUpper | components/ResultsScreen.tsx:25 | hyphenating adds no capital letter |
| Slug.HyphenateWithoutWhitespace | components/ResultsScreen.tsx:25 | text without whitespace is left unchanged |
| Slug.HyphenateAfterWord | components/ResultsScreen.tsx:25 | a whitespace-free start is kept and only the rest is hyphenated |
| Slug.HyphenateSpace | components/ResultsScreen.tsx:25 | a space before a whitespace-free word becomes one `-` |
| Slug.HyphenateKeepsWords | components/ResultsScreen.tsx:25 | hyphenating keeps the word characters |
| Slug.HyphenateOneSpace | components/ResultsScreen.tsx:25 | one space between two whitespace-free parts becomes one `-` |
| Slug.DeleteNonWord | components/ResultsScreen.tsx:26 | only word characters and `-` remain and the text never grows |
| Slug.DeleteNoUpper | components/ResultsScreen.tsx:26 | deleting adds no capital letter |
| Slug.DeleteOfWordChars | components/ResultsScreen.tsx:26 | text of word characters and `-` is left unchanged |
| Slug.DeleteKeepsWords | components/ResultsScreen.tsx:26 | deleting keeps the word characters |
| Slug.DeleteAppend | components/ResultsScreen.tsx:26 | deleting distributes over concatenation |
| Slug.DeleteDropsHash | components/ResultsScreen.tsx:26 | `#` is deleted |
| Slug.DeleteHash | components/ResultsScreen.tsx:26 | `-#` followed by digits becomes `-` and the digits |
| Slug.CollapseHyphens | components/ResultsScreen.tsx:27 | no `--` remains, the text never grows, and the first character is kept |
| Slug.CollapseSlugChars | components/ResultsScreen.tsx:27 | collapsing keeps slug characters slug characters |
| Slug.CollapseWithoutDoubles | components/ResultsScreen.tsx:27 | text without `--` is left unchanged |
| Slug.CollapseKeepsWords | components/ResultsScreen.tsx:27 | collapsing keeps the word characters |
| Slug.StripLeadingHyphens | components/ResultsScreen.tsx:28 | only `-` is dropped, from the front, and the result does not start with `-` |
| Slug.StripLeadingIsSuffix | components/ResultsScreen.tsx:28 | what is kept is the end of the input |
| Slug.StripLeadingKeepsWords | components/ResultsScreen.tsx:28 | stripping keeps the word characters |
| Slug.StripTrailingHyphens | components/ResultsScreen.tsx:29 | only `-` is dropped, from the end; what is kept is a prefix that does not end with `-` |
| Slug.StripTrailingIsPrefix | components/ResultsScreen.tsx:29 | what is kept is the start of the input |
| Slug.StripTrailingKeepsWords | components/ResultsScreen.tsx:29 | stripping keeps the word characters |
| Slug.StripKeepsSlugForm | components/ResultsScreen.tsx:28-29 | stripping both ends of collapsed slug characters gives a slug |
| Slug.SlugFormStages | components/ResultsScreen.tsx:24-29 | each replacement keeps what the earlier ones established, ending in slug form |
| Slug.LowerOfSlugChars | components/ResultsScreen.tsx:24 | lowering leaves slug characters unchanged |
| Slug.LowerOfNonWord | components/ResultsScreen.tsx:24 | lowering text with no word character and neither special capital yields no word character |
| Slug.LowerKeeps | components/ResultsScreen.tsx:24 | lowering leaves text without capitals unchanged |
| Slug.LowerCapitalised | components/ResultsScreen.tsx:24 | lowering a capitalised word lowers only its first letter |
| Slug.LowerHead | components/ResultsScreen.tsx:24 | lowering a letter and a lower-case word lowers only the letter |
| Slug.HyphenatedIsSlug | components/ResultsScreen.tsx:23-30 | two lower-case alphanumeric words joined by `-` are in slug form |
| Slug.SlugOfStages | components/ResultsScreen.tsx:23-30 | when lowering, hyphenating and deleting already give a slug, the remaining replacements change nothing |
| Occurrences.FirstOccurrence | components/ResultsScreen.tsx:36 | the first position holding a key, as `getElementById` picks the first element with an id |
| Occurrences.FirstOccurrenceShared | components/ResultsScreen.tsx:36 | positions holding the same key share their first occurrence |
| Occurrences.FirstOccurrenceSelf | components/ResultsScreen.tsx:36 | a position is its key's first occurrence exactly when no earlier position holds the key |
| Occurrences.FirstOccurrenceTransfer | components/ResultsScreen.tsx:33 | keys that repeat at the same positions have the same first occurrences |
| Occurrences.DistinctTransfer | components/ResultsScreen.tsx:33 | keys that repeat at the same positions are distinct together |
| Occurrences.Elements | components/ResultsScreen.tsx:76 | the set of keys: every key is in it and nothing else is |
| Occurrences.ElementsSize | components/ResultsScreen.tsx:70-77 | never more keys than positions, and exactly as many when no key repeats |
| Occurrences.DistinctExtend | components/ResultsScreen.tsx:70-77 | a last key unlike all earlier ones leaves distinctness to the earlier keys |
| Occurrences.Prefixed | components/ResultsScreen.tsx:33 | a common prefix keeps the same repetitions |
| Occurrences.Suffixed | components/ResultsScreen.tsx:40 | a common suffix keeps the same repetitions |
| ResultsScreen.CanvasIdCollision | components/ResultsScreen.tsx:33 | two cards get the same canvas id exactly when their labels have the same slug |
| ResultsScreen.FileNameCollision | components/ResultsScreen.tsx:40 | two cards get the same file name exactly when their labels have the same slug |
| ResultsScreen.PunctuationFileName | components/ResultsScreen.tsx:40 | a label of punctuation is saved as `.png` |
| ResultsScreen.PageKeys | components/ResultsScreen.tsx:33-49 | canvas ids and file names repeat exactly where the slugs repeat |
| ResultsScreen.FileNamesFollowSlugs | components/ResultsScreen.tsx:76 | file names repeat exactly where slugs do, and are distinct exactly when slugs are |
| ResultsScreen.GetElementById | components/ResultsScreen.tsx:36 | the first canvas with the id, or none exactly when no canvas has it |
| ResultsScreen.LookupFirst | components/ResultsScreen.tsx:36 | looking up a canvas's own id finds the first canvas with that id |
| ResultsScreen.LookupFindsFirst | components/ResultsScreen.tsx:33-36 | a card's lookup finds the canvas of the first card with the same slug |
| ResultsScreen.SaveIndividual | components/ResultsScreen.tsx:35-44 | Save writes the card's file name with the symbol of the first card sharing its slug |
| ResultsScreen.SaveIndividualOwnImage | components/ResultsScreen.tsx:35-44 | a card whose slug no earlier card has saves its own symbol |
| ResultsScreen.SaveSecondOfPair | components/ResultsScreen.tsx:35-44 | of two cards sharing a slug, Save on the second saves the first card's symbol |
| ResultsScreen.CollisionFileName | components/ResultsScreen.tsx:40 | `Table #1` and `Table 1` are both saved as `table-1.png` |
| ResultsScreen.SaveIndividualWrongImage | components/ResultsScreen.tsx:33-44 | Save on `Table 1` after `Table #1` writes `table-1.png` with the first card's link |
| ResultsScreen.CorrectedSaveIndividual | components/ResultsScreen.tsx:35-44 | with index-keyed canvases, Save writes the card's file name with the card's own symbol |
| ResultsScreen.CorrectedLookup | components/ResultsScreen.tsx:36 | index-keyed ids make the lookup find the card itself |
| ResultsScreen.HandleSaveAll | components/ResultsScreen.tsx:62-83 | missing libraries stop it with no archive; otherwise the archive is `qr-codes.zip` with exactly the codes' file names, each holding the first same-slug code's symbol, and one entry per code exactly when no slug repeats |
| ResultsScreen.CollectEntries | components/ResultsScreen.tsx:70-77 | the forEach over the codes stores exactly one entry per distinct name, holding the canvas the lookup of that code's id finds |
| ResultsScreen.CollectStep | components/ResultsScreen.tsx:70-77 | one more code keeps the entries so far and adds its own name with its first same-name canvas |
| ResultsScreen.KeysStep | components/ResultsScreen.tsx:76 | storing under one more name adds that name to the archive's names |
| ResultsScreen.ValuesStep | components/ResultsScreen.tsx:76 | overwriting a name with the value that name always carries keeps every earlier entry |
| ResultsScreen.SaveAllInputs | components/ResultsScreen.tsx:71 | looking up each code's id finds the canvas of the first code with the same file name |
| ResultsScreen.SaveAllOutputs | components/ResultsScreen.tsx:70-77 | the collected entries hold the first same-slug code's symbol, and there are as many as codes exactly when slugs are distinct |
| ResultsScreen.ArchiveSize | components/ResultsScreen.tsx:70-77 | the archive has at most one name per code, and exactly one per code exactly when slugs are distinct |
| ResultsScreen.ArchiveLosesEntry | components/ResultsScreen.tsx:70-77 | `Table #1` and `Table 1` give an archive with a single entry |
| ResultsScreen.SplitAtDot | components/ResultsScreen.tsx:76 | names split at their first `.` are equal exactly when both parts are |
| ResultsScreen.DisambiguatedDistinct | components/ResultsScreen.tsx:76 | dot-free keys get pairwise different corrected names |
| ResultsScreen.TailsDiffer | components/ResultsScreen.tsx:76 | the name endings of two different positions differ |
| ResultsScreen.SlugsHaveNoDot | components/ResultsScreen.tsx:26 | no slug contains `.` |
| ResultsScreen.CorrectedNamesDistinct | components/ResultsScreen.tsx:76 | no two codes get the same corrected name |
| ResultsScreen.CorrectedNamesKeepFirst | components/ResultsScreen.tsx:76 | every file name the source uses is still among the corrected names |
| ResultsScreen.FirstNamesKept | components/ResultsScreen.tsx:76 | when first occurrences keep their names, every name survives |
| ResultsScreen.CorrectedSaveAll | components/ResultsScreen.tsx:62-83 | with corrected names there is one entry per code, each holding that code's own symbol, and every source file name is present |
| ResultsScreen.CorrectedInputs | components/ResultsScreen.tsx:71 | with index-keyed canvases each code's lookup finds its own canvas |
| ResultsScreen.CorrectedOutputs | components/ResultsScreen.tsx:70-77 | with corrected names the collected archive has one entry per code, with that code's symbol |
| App.Render | App.tsx:27-29 | the results screen is shown exactly when a list is held, and is given that list |
| App.Step | App.tsx:12-20 | Back returns to the setup form; a submission on the setup form shows exactly the generated codes when generation succeeds; validity is kept |
| App.RunValid | App.tsx:10 | from a valid state, any actions keep the shown list non-empty |
| App.ShownCodesWereGenerated | App.tsx:10-15 | any list shown was produced by one successful form submission |
| App.BackReturnsToSetup | App.tsx:17-20 | after Back the setup form is shown |

## Left out

- Rendering the symbols, canvas pixels, `toBlob`, `toDataURL` and base64, and the zip format are all left out. A canvas and an archive entry carry the link their picture encodes.
- `generateAsync`, the `alert` and `window.scrollTo` are left out. So are asynchronous ordering and React's duplicate-key warning for repeated labels. Save-All's missing-library check is a pair of boolean inputs.
- The default message template lives in `constants.ts`, which is not part of this model. The template is an input of the form.
- The `label` field of a generated code is named `tableLabel`, because `label` is a Dafny keyword.
- JsString.ParseInt: works on unbounded integers. JavaScript's double-precision rounding of very long digit strings is not modelled.
- JsString.ToLowerCase: lowers the ASCII capitals, U+0130 and U+212A (the characters whose lower case is ASCII). Other non-ASCII characters are left as they are; every later slug step deletes them either way.
- Uri.EncodeUriComponent: characters are Unicode scalar values. Lone surrogates, and the URIError that JavaScript raises for them, are not modelled.
- Render and event dispatch are modelled as a pure state machine. The button wiring and the form's error text are not modelled.

## Findings

| source | as written | input that shows it | evidently intended | confidence | as-written member | corrected member |
|---|---|---|---|---|---|---|
| components/ResultsScreen.tsx:33-44 | canvas ids come from the label's slug, and `getElementById` returns the first match | labels `Table #1` and `Table 1` with different links | Save on each card exports that card's own symbol | not executed | ResultsScreen.SaveIndividualWrongImage | ResultsScreen.CorrectedSaveIndividual |
| components/SetupForm.tsx:47-49 | the second `replace` scans the label the first one inserted, so it fills a `{business}` inside the label instead of the template's | label `{business} VIP`, template `At {table} of {business}`, name `Cafe` | each placeholder of the template is filled once, and the label and the name are inserted as typed | not executed | Link.PlaceholderInLabel | Link.CorrectedTableThenBusiness |
| components/ResultsScreen.tsx:70-77 | zip entries are named by slug, so a later entry replaces an earlier one of the same name | labels `Table #1` and `Table 1` | the archive holds one file per code, each with its own symbol | not executed | ResultsScreen.ArchiveLosesEntry | ResultsScreen.CorrectedSaveAll |

`Link.CorrectedMessage` fills the first `{table}` and the first `{business}` of the template itself and never rescans the inserted text. `Link.CorrectedAgrees` shows it gives the same message as the two `replace` calls whenever the label and the name hold no `{` or `$`.

The corrected model renders card `k` into `qr-canvas-k`. The first code of each slug keeps `<slug>.png`; every later code with a repeated slug is stored as `<slug>.<k+1>.png`.
