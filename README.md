# Border Fine Arts description composer, in Dafny

This model covers the part of `script.js` that composes a sales description
from Border Fine Arts model numbers. The user types model numbers, and
optionally limited-edition numerators, as comma-separated text, and ticks
three options: wood base, box and certificate. `performLookup` then:

- looks every model number up in a table of records (model number,
  description);
- rewrites each record found:
  - the numerator at the same input position replaces the first `*/`;
  - every record after the first loses its leading "Border Fine Arts";
  - the text up to and including the first comma is bolded;
  - the comma after the first `digits/digits` run is dropped;
- joins the rewritten descriptions as an English list with an Oxford comma;
- appends the accessory phrase from `getCheckboxOutput`, singular or plural,
  and the number of models in parentheses;
- strips a leading comma.

The model is pure: the record table, the two texts and the three options are
parameters, and the sentence and the state of the copy button are results.

Modules:

- `JsText` holds the JavaScript string built-ins the code relies on, stated
  over Dafny strings and proved about:
  - `trim()`, with the ECMAScript whitespace set;
  - `split(',')` and `join`;
  - `indexOf`;
  - `replace` with a string pattern, which replaces only the first
    occurrence and honours the `$$`, `$&`, `` $` `` and `$'` patterns of the
    replacement;
  - ASCII `toLowerCase`;
  - the decimal rendering of a number.
- `Checkbox` holds `getCheckboxOutput`: the phrase table and the chained
  first-occurrence pluralisation, which is proved equal to an independent
  plural table.
- `Render` holds the rewriting of one description. Its two regular
  expressions are written as explicit string functions. `\d+\/\d+` is given
  two readings, an existential one (`MatchesAt`) and a run-based one
  (`FractionAt`), proved equivalent.
- `Compose` holds the list joining, the phrase, the count and the leading
  strip. The join is proved equal to a fragment-by-fragment reference
  reading (`Weave`).
- `Lookup` holds tokenising, the case-insensitive lookup, the pass over the
  tokens as a fold over the state (fragments, brand flag), and the
  procedure itself. The procedure is written as methods: a `while` loop
  that pushes onto `outputs` and clears the brand flag, and a description
  and a sentence rewritten step by step. Each method is proved against the
  fold or function that specifies it.

### Behaviour of the code worth noting

- Limited-edition numerators are matched by input position (script.js:125).
  A token that finds no record still uses up its numerator. Numerators are
  not taken in turn by the records found.
- The bold part ends at the first comma (script.js:137), even a comma
  inside parentheses. It also includes that comma, because the code takes
  `substring(0, firstCommaIndex + 1)` (script.js:139).
- The copy button is enabled exactly when the sentence is non-empty
  (script.js:183). A sentence of blanks counts as non-empty.
- The final strip removes a leading comma and all whitespace after it
  (script.js:180), not just one space.
- The numerator is user text passed as a `replace` replacement
  (script.js:126), so `$&` and similar patterns in it are expanded.
  `Render.SubstituteEditionFirst`, `Render.SubstituteEditionAt` and
  `JsText.ReplaceFirst` state the plain replacement only for replacements
  without `$`.

## Model

| member | source | states |
|---|---|---|
| `Lookup.PerformLookup` | script.js:108-183 | The sentence is `ComposeOutput` of the table, the two texts and the options. Copying is enabled exactly when the sentence is non-empty. |
| `Lookup.RenderAll` | script.js:115-149 | The `forEach` loop's fragments are those of the fold `RenderPass`. The loop invariant ties the pushed list and the brand flag to the fold over the tokens seen so far. |
| `Lookup.RenderDescription` | script.js:122-145 | The description rewritten in place, step by step, equals `RenderRecord` with the numerator at the token's position and the current brand flag. |
| `Lookup.AssembleSentence` | script.js:151-180 | The sentence built in place equals `Assemble` of the fragments and the options. |
| `Lookup.Tokenise` | script.js:109-110 | Trim, split and trim always give at least one token, the empty one included. |
| `Lookup.TokensClean` | script.js:109-110 | Every token is trimmed and holds no comma. |
| `Lookup.TokeniseJoin` | script.js:109-110 | Trimmed, comma-free model numbers written with ", " between them tokenise back to exactly themselves, in order, empty ones included. |
| `Lookup.FirstMatch` | script.js:119 | `find` picks the first record whose model number equals the token ignoring case. No earlier record matches, and none found means no record matches. |
| `Lookup.Lookup` | script.js:119 | A record is found exactly when some record matches, and it is the first matching one. |
| `Lookup.LookupIgnoresCase` | script.js:119 | Tokens that differ only in letter case resolve to the same record. |
| `Lookup.Hits` | script.js:118-121 | The resolved tokens, listed with their input positions. Each one really resolves to its record, and the positions strictly increase, so input order is kept. |
| `Lookup.HitsComplete` | script.js:118-121 | Every token that resolves appears among the hits. |
| `Lookup.RenderPassPositional` | script.js:116-147 | The fragments correspond one to one to the hits, in input order. Fragment k is its record rendered with the numerator at that token's own input position. Only fragment 0 keeps the brand. The flag stays set while nothing has resolved. |
| `Lookup.FragmentsBounded` | script.js:118-147 | There are never more fragments than tokens. |
| `Lookup.NothingResolved` | script.js:118-180 | When no token resolves, the output is exactly the singular accessory phrase, the empty one included. |
| `Render.EditionAt` | script.js:125 | A numerator is used exactly when the position is in range and the numerator there is non-empty, and it is that numerator. |
| `Render.SubstituteEditionFirst` | script.js:126 | For a numerator without `$`: only the first `*/` is replaced, by the numerator and a slash. A description without `*/` is unchanged. |
| `Render.SubstituteEditionAt` | script.js:126 | For a numerator without `$`: a description with an earlier part free of `*` gets the numerator at its first marker, and the rest is kept. |
| `Render.StripBrand` | script.js:131 | Text not starting with the brand is unchanged. Otherwise the brand and the whitespace run after it are removed, and what is left does not start with whitespace. |
| `Render.StripBrandOfPadded` | script.js:131 | The brand, any whitespace, then text not starting with whitespace leaves exactly that text. |
| `Render.BoldAtFirstComma` | script.js:137-142 | With the first comma at i, the result is the open tag, `s[..i+1]` with the comma, the close tag, then the rest. |
| `Render.BoldNoComma` | script.js:137-142 | Text without a comma is not changed. |
| `Render.UnboldBold` | script.js:137-142 | Removing the two tags always gives back the text. |
| `Render.RunEndShape` | script.js:145 | A greedy `\d+` run is all digits and ends at a non-digit or at the end of the text. |
| `Render.MatchSlash` | script.js:145 | In a match of `\d+\/\d` at p, the slash is exactly where the digit run from p ends. |
| `Render.FractionAtIff` | script.js:145 | The run-based test and the existential definition of a match at p agree. |
| `Render.FirstFractionFromLeast` | script.js:145 | The search finds the leftmost match, and finding none means there is no match at all. |
| `Render.FirstFractionFromAt` | script.js:145 | A match with no match before it is the one the search finds. |
| `Render.FractionEnd` | script.js:145 | The greedy second digit run ends after at least one digit, at a non-digit or at the end. |
| `Render.CleanFraction` | script.js:145 | At most one character is removed. |
| `Render.CleanFractionRemovesComma` | script.js:145 | The result is the input, or the input with exactly one comma removed. |
| `Render.CleanFractionNoMatch` | script.js:145 | Text where `\d+\/\d` matches nowhere is unchanged. |
| `Render.CleanFractionFirstMatch` | script.js:145 | Only the leftmost match counts. A comma right after its greedy second run is removed, and with no comma there the text is unchanged, whatever matches follow. |
| `Render.RenderPlain` | script.js:122-145 | Without numerator, comma or fraction, the first record's description is kept as it is, and a later record's is exactly the description with the brand prefix stripped. |
| `Render.StripBrandSuffix` | script.js:131 | What the brand strip leaves is a suffix of the text. |
| `Compose.JoinFragmentsIsWeave` | script.js:151-158 | The list is the fragments in order, with " and " between two, and ", " between many except ", and " before the last. |
| `Compose.JoinIsWeave` | script.js:157 | `slice(0, -1).join(', ')` is the fragments with ", " between them. |
| `Compose.JoinFragmentsEnds` | script.js:151-158 | A non-empty list starts with the first fragment and ends with the last. |
| `Compose.JoinFragmentsHasAnd` | script.js:154-157 | Two or more fragments leave the word "and" inside the sentence, after its first character. |
| `Compose.AppendPhrase` | script.js:163-173 | The sentence is kept as a prefix and the phrase ends the result, with at most two characters between them. An empty phrase changes nothing, and an empty sentence gives the phrase alone. |
| `Compose.AppendPhraseSeparator` | script.js:163-173 | Between a non-empty sentence and phrase stands ", ", or nothing when the sentence already ends with a comma. |
| `Compose.WithCount` | script.js:176-178 | The `(n)` suffix is appended exactly when n > 1. |
| `Compose.WithCountDigits` | script.js:176-178 | The suffix is " (", digits that read back as n, then ")". |
| `Compose.StripLeadingComma` | script.js:180 | Text not starting with a comma is unchanged. Otherwise the comma and the whitespace run after it are dropped, and what is left does not start with whitespace. |
| `Compose.StripLeadingCommaAppend` | script.js:180 | Text appended after a part that is not just a comma and blanks does not change what the strip removes. |
| `Compose.AssembleNothing` | script.js:161-180 | With no fragments the output is the singular phrase. |
| `Compose.AssembleOne` | script.js:152-180 | With one fragment the phrase is singular and there is no count. |
| `Compose.AssembleMany` | script.js:151-180 | With more fragments the phrase is the plural one, and the count comes last, untouched by the strip. |
| `Checkbox.SingularPhrase` | script.js:187-205 | For one model or none, the phrase of the flag table is returned unchanged. |
| `Checkbox.PluralTable` | script.js:206-210 | For more than one model, the three first-occurrence replacements give the plural phrase of every combination. |
| `Checkbox.PluralWoodBase` | script.js:198-208 | The wood base alone, for two models, gives "on wood bases". |
| `Checkbox.PhraseEmptyIff` | script.js:187-211 | The phrase is empty exactly when no option is ticked, for any number of models. |
| `Checkbox.PhraseStart` | script.js:190-208 | Every phrase is empty or starts with "on " or "with ". |
| `JsText.TrimShape` | script.js:109-110 | `trim()` leaves text that neither starts nor ends with whitespace, made of the input's characters. |
| `JsText.TrimIdempotent` | script.js:109-110 | Trimming twice is trimming once. |
| `JsText.JoinSplit` | script.js:109-110 | Joining the pieces of `split` with the separator gives back the text. |
| `JsText.SplitJoin` | script.js:109-110 | Splitting pieces without the separator, joined by it, gives back the pieces. |
| `JsText.IndexOf` | script.js:137 | `indexOf` gives the first position of the character, or reports that it is absent. |
| `JsText.ReplaceFirst` | script.js:126 | For a replacement without `$`: `replace` with a string pattern puts the replacement in place of the first occurrence only, or changes nothing when there is none. |
| `JsText.SameIgnoringCaseIsEquivalence` | script.js:119 | Comparing lower-cased strings is reflexive, symmetric and transitive. |
| `JsText.ParseNatToString` | script.js:177 | The rendered count reads back as the count. |

## Left out

- Loading the CSV file with Papa Parse and the filter on its rows
  (script.js:1-12). This is network I/O through an external library. The
  record table is a parameter instead. A missing `model_number` in a CSV
  row is not modelled.
- The autocomplete dropdown and its listeners (script.js:17-66). This is
  user interface code.
- Copying to the clipboard and the alerts (script.js:68-87). These are
  asynchronous browser APIs.
- The Clear-all handler (script.js:90-104). It only resets form fields.
- The DOM reads and writes of `performLookup` (script.js:109-113, 182-183).
  The reads are parameters, and the writes are the two results.
- Lookup.FirstMatch: case is folded over ASCII letters only. The full
  Unicode `toLowerCase` is not modelled.
- Strings are sequences of Unicode scalar values, not of UTF-16 code units.
  Positions therefore differ from JavaScript's for text with characters
  outside the Basic Multilingual Plane. No rule of the composer depends on
  those positions.
- Render.SubstituteEditionFirst: the plain-replacement property is stated
  only for numerators without `$`. The `$` patterns themselves are
  modelled in `JsText.Substitute`. A numerator such as `$&` is therefore
  not inserted as typed, and no lemma describes what it does insert.
- Render.SubstituteEditionAt: stated only for numerators without `$`,
  for the same reason.
- JsText.ReplaceFirst: stated only for replacements without `$`, for the
  same reason.
