# HSN code resolution, modelled in Dafny

This project models the core of an HSN (tariff classification) webhook.
The core is all in `functions/index.js` and does three things:

- **Code Index build** (`CodeIndex`). Each spreadsheet row is a list of
  (header, cell) pairs in key order. Each header is normalised: trimmed,
  then CR and LF removed. The `HSNCode` cell is reduced to its ASCII digits.
  A row whose digit string is empty is skipped. Every other row sets its
  code to its `Description` cell, or to `''` when there is none. A later
  row replaces an earlier one with the same code.
  `BuildIndex` and `NormalizeRow` are the loops. `IndexOf` and
  `NormalizedFields` are the folds that specify them.
- **Candidate extraction** (`Extraction`). A truthy `hsn-code.original`
  parameter is the only candidate. Otherwise the candidates are the matches
  of `/\b\d{2,8}\b/g` in the user's text. `RegexMatches` models the regular
  expression engine: the boundary test, the greedy count with backtracking,
  and resuming after a match. `CodeWords` is a tokeniser that keeps the
  maximal runs of word characters made of 2 to 8 digits. The two are proved
  equal.
- **Hierarchy walk and outcome** (`Resolver`, `Webhook`). A candidate is
  cleaned to its digits. `Walk` then tests the prefixes of lengths `n`,
  `n-2`, … while the length is at least 2. It keeps a prefix only when the
  index maps it to a non-empty description. The outcome is `Found` with the
  kept prefixes, or `NotFound`; both carry the cleaned code. `Respond`
  renders one outcome per candidate. `HandleRequest` joins the responses
  with a blank line and adds the closing line. When there is no candidate
  at all, it hands the request to the conversational fallback (`SmallTalk`).

The webhook keeps its index in a process-wide variable that is filled once
at start-up and only read afterwards. The model treats the index as a value:
`BuildIndex` returns it, and every resolution takes it as a parameter.

## Behaviour of the code that a reader might not expect

The model follows the code in each of these cases.

- There is no separate "no valid code" reply for a candidate without
  digits. An empty cleaned code goes through the walk and becomes `NotFound("")`
  (functions/index.js:105,119).
- A one-digit code is not tested at all. One might expect a single test at
  full length, but the loop guard `len >= 2` fails at once. So a cleaned
  code of length 0 or 1 tests no prefix, and it is `NotFound` even when the
  index holds it (`Resolver.ShortCodeNotFound`).
- An odd-length code is not tested at the even (chapter, heading,
  sub-heading) lengths. The loop subtracts 2 from the full length each time,
  so a 7-digit code tests only lengths 7, 5 and 3. This parity rule is part
  of `Resolver.HierarchyShape`.
- A key in the index is not enough for a prefix to count. The walk tests the
  stored description for truthiness, so a code stored with an empty
  description is never reported (`Resolver.EmptyDescriptionNeverMatches`).

## Model

| member | source | states |
|---|---|---|
| `Text.IsDigit` | functions/index.js:31 | `\d`: exactly the ten ASCII digits `0` to `9`. |
| `Text.IsWordChar` | functions/index.js:89 | `\w` in a regular expression without the `u` flag: the ASCII letters, the ASCII digits and `_`. |
| `Text.IsWhiteSpace` | functions/index.js:27 | What `trim` removes: the ECMAScript WhiteSpace code points (tab, vertical tab, form feed, space, no-break space, byte order mark, the Unicode space separators) and the LineTerminator code points (LF, CR, U+2028, U+2029). |
| `Text.Filter` | functions/index.js:27 | The result of a global `replace` that deletes a character class holds only the kept characters. It is no longer than the input, and a string whose characters are all kept is returned unchanged. That deleted characters leave nothing behind is stated by `Text.FilterSingleton`. |
| `Text.FilterAppend` | functions/index.js:27 | Deleting characters distributes over concatenation, so the kept characters stay in their original order. |
| `Text.FilterSingleton` | functions/index.js:27 | On a single character the deletion keeps it when it is in the kept class and removes it otherwise. Together with `Text.FilterAppend` this determines the result on every string: the kept characters, in order, and nothing else. |
| `Text.DigitsSingleton` | functions/index.js:105 | A single digit stays and any other single character is removed. With `Text.DigitsAppend` this makes the cleaned code exactly the input's digits, in order. |
| `Text.Digits` | functions/index.js:31 | `replace(/\D/g, '')` yields only ASCII digits, is no longer than its input, and leaves an all-digit string unchanged. That non-digits are removed, not replaced, is stated by `Text.DigitsSingleton`. |
| `Text.DigitsAppend` | functions/index.js:105 | The digits of a concatenation are the digits of each part, in order. |
| `Text.DigitsIdempotent` | functions/index.js:105 | Cleaning a code that was already cleaned changes nothing. |
| `Text.TrimStart` | functions/index.js:27 | The result is the suffix left after the longest run of leading white space. |
| `Text.TrimEnd` | functions/index.js:27 | The result is the prefix left after the longest run of trailing white space. |
| `Text.Trim` | functions/index.js:27 | The trimmed header neither starts nor ends with white space, and an already trimmed string is unchanged. |
| `Text.TrimIsSlice` | functions/index.js:27 | The trimmed header is a slice of the raw header, and everything outside that slice is white space. |
| `Text.NormalizeHeader` | functions/index.js:27 | A normalised header contains no CR or LF, and does not start or end with white space. |
| `Text.NormalizeHeaderIdempotent` | functions/index.js:27 | Normalising a normalised header changes nothing. |
| `Records.FromPairs` | functions/index.js:25-28 | The object left by assigning each (key, value) pair in order, starting from `{}`. A later assignment to a key overwrites an earlier one (`Records.LastWins`). |
| `Records.FromPairsKeys` | functions/index.js:25-29 | The properties of `normalizedRow` are exactly the headers that were assigned. |
| `Records.LastWins` | functions/index.js:28 | A property holds the value of the last assignment to it. |
| `CodeIndex.NormalizedFields` | functions/index.js:25-29 | `normalizedRow`: the row's cells assigned in key order under their normalised headers. |
| `CodeIndex.Field` | functions/index.js:31-35 | A text field with the empty-string fallback at lines 31 and 35: its value, or `''` when the field is absent. |
| `CodeIndex.RowCode` | functions/index.js:31 | `rawCode`: the digits of the row's `HSNCode` field, or `''` when there is none. |
| `CodeIndex.RowDescription` | functions/index.js:32-35 | The stored description: the row's `Description` field, or `''` when there is none. |
| `CodeIndex.AddEntry` | functions/index.js:34-35 | One step of the `forEach`: a non-empty code is set to its description, overwriting any earlier value, and an empty code leaves the map unchanged. |
| `CodeIndex.IndexOf` | functions/index.js:21-37 | `hsnMap` after every row has been processed in order. Its keys are described by `CodeIndex.IndexKeysAreRowCodes` and its values by `CodeIndex.IndexLastRowWins`. |
| `CodeIndex.NormalizeRow` | functions/index.js:25-29 | The `for...in` loop builds exactly the map of normalised headers to cell values, with later cells overriding earlier ones. |
| `CodeIndex.FieldsEntry` | functions/index.js:31-35 | The code taken from a row consists of ASCII digits only. |
| `CodeIndex.BuildIndex` | functions/index.js:21-37 | The `forEach` loop builds exactly the fold `IndexOf` of the rows. |
| `CodeIndex.NormalizedHeadersClean` | functions/index.js:26-29 | Every key of a normalised row is free of CR and LF and is trimmed. |
| `CodeIndex.LaterHeaderWins` | functions/index.js:26-29 | When raw headers normalise to the same name, the later cell in key order supplies the value. |
| `CodeIndex.IndexOfEntriesKeys` | functions/index.js:34-35 | The index keys are exactly the non-empty codes that were added. |
| `CodeIndex.IndexOfEntriesLastWins` | functions/index.js:35 | The description stored for a code is the one from the last entry with that code. |
| `CodeIndex.CodelessEntryIgnored` | functions/index.js:34 | An entry with an empty code changes nothing, wherever it stands. |
| `CodeIndex.IndexKeysAreRowCodes` | functions/index.js:31-35 | Every key is a non-empty ASCII digit string that is some row's cleaned code, and every non-empty cleaned code is a key. |
| `CodeIndex.IndexLastRowWins` | functions/index.js:31-35 | The last row carrying a code supplies its stored description. A missing description is stored as `''`. |
| `CodeIndex.CodelessRowIgnored` | functions/index.js:31-36 | A row whose `HSNCode` is missing, blank or digit-free adds nothing, and the build does not fail. |
| `Extraction.IsBoundary` | functions/index.js:89 | `\b` at a position: exactly one of the characters either side is a word character, with the ends of the text counting as non-word. |
| `Extraction.MatchAt` | functions/index.js:89 | `\b\d{2,8}\b` tried at one position: a boundary there, then the greedy count of `Extraction.DigitsThenBoundary` with at most 8 digits. |
| `Extraction.RegexMatches` | functions/index.js:89-90 | `match` with the `g` flag: after a match the search resumes at its end, otherwise one position further, until the end of the text. A text with no match gives no candidates, as `if (extracted)` does. The matches are the code words (`Extraction.RegexMatchesAreCodeWords`). |
| `Extraction.DigitsThenBoundary` | functions/index.js:89 | Greedy `\d{2,m}\b` returns the largest digit count from `m` down to 2 that is followed by a word boundary, and none when no count works. |
| `Extraction.WordEnd` | functions/index.js:89 | The returned position ends the maximal run of word characters that starts at the given position. |
| `Extraction.CodeWords` | functions/index.js:89 | Every token is 2 to 8 ASCII digits. |
| `Extraction.DigitsThenBoundaryAtWordStart` | functions/index.js:89 | At the start of a word, `\d{n}\b` matches exactly when the whole word is `n` digits. |
| `Extraction.MatchAtWordStart` | functions/index.js:89 | At a word start the regular expression matches the whole word when it is a code word, and otherwise matches nothing. |
| `Extraction.SkipInsideWord` | functions/index.js:89 | No match starts inside a word, so the search continues from the word's end. |
| `Extraction.NoMatchAtNonWord` | functions/index.js:89 | No match of the regular expression starts at a character that is not a word character. |
| `Extraction.RegexMatchesAtCodeWord` | functions/index.js:89-90 | From the start of a code word, the global search yields the whole word and then resumes at its end. |
| `Extraction.RegexMatchesAtOtherWord` | functions/index.js:89-90 | From the start of a word that is not a code word, the global search yields nothing from that word and resumes at its end. |
| `Extraction.RegexMatchesAreCodeWords` | functions/index.js:89-90 | The matches of `/\b\d{2,8}\b/g` are the maximal word runs of 2 to 8 digits, in textual order, with duplicates kept. |
| `Extraction.Candidates` | functions/index.js:85-91 | `matches`: the original parameter alone when it is truthy, otherwise the matches of the regular expression in the user's text. |
| `Extraction.CandidatesAreCodeWords` | functions/index.js:85-91 | A truthy original parameter is the only candidate. Otherwise the candidates are the code words of the user's text. |
| `Resolver.Known` | functions/index.js:110-111 | `if (desc)` after `hsnMap.get(part)`: the prefix is a key and its description is not the empty string. |
| `Resolver.TestedLengths` | functions/index.js:108 | The loop visits lengths `n, n-2, …` down to the last one that is at least 2, and none when `n < 2`. |
| `Resolver.TestedLengthsMembers` | functions/index.js:108 | A length is tested if and only if it lies between 2 and `n` and has the parity of `n`. |
| `Resolver.KnownPrefixes` | functions/index.js:109-113 | For each length in the given order, the prefix of that length with its description when it is known, and nothing otherwise. |
| `Resolver.Hierarchy` | functions/index.js:108-114 | `hierarchy` before rendering: the known prefixes at the tested lengths, longest first. It is characterised by `Resolver.HierarchyShape`. |
| `Resolver.Walk` | functions/index.js:106-114 | The walk loop computes exactly the known prefixes at the tested lengths, in visiting order. |
| `Resolver.KnownPrefixesSound` | functions/index.js:109-113 | Every kept match is a prefix at a tested length that is a key with a non-empty description, and it carries that description. |
| `Resolver.KnownPrefixesComplete` | functions/index.js:109-113 | Every prefix at a tested length that has a non-empty description is kept. |
| `Resolver.KnownPrefixesDecreasing` | functions/index.js:108-113 | Strictly decreasing tested lengths give matches of strictly decreasing length. |
| `Resolver.HierarchyShape` | functions/index.js:108-114 | A match is in the hierarchy if and only if it is a prefix of length at least 2 with the code's parity, indexed with a non-empty description. Matches come longest first. |
| `Resolver.OutcomeOf` | functions/index.js:105-120 | The candidate is cleaned to its digits. The outcome is `Found` with the hierarchy when that is non-empty, and `NotFound` otherwise. Both carry the cleaned code (`Resolver.OutcomeFoundIffKnownPrefix`). |
| `Resolver.Resolve` | functions/index.js:104-120 | Resolving one candidate cleans it, walks its prefixes, and yields `Found` or `NotFound` as `OutcomeOf` says. |
| `Resolver.OutcomeFoundIffKnownPrefix` | functions/index.js:105-120 | The outcome carries the cleaned candidate. It is `Found` if and only if some tested prefix has a non-empty description. |
| `Resolver.ShortCodeNotFound` | functions/index.js:108 | A cleaned code of fewer than two digits is `NotFound`, even when it is indexed. |
| `Resolver.EmptyDescriptionNeverMatches` | functions/index.js:110-111 | A code indexed with the empty description never appears in a hierarchy. |
| `Resolver.EmptyIndexNotFound` | functions/index.js:104-120 | Against the index built from no rows, every candidate is `NotFound`. |
| `Resolver.MissingIntermediatePrefixSkipped` | functions/index.js:108-114 | With `123456` and `12` indexed but not `1234`, the result is `Found` with those two, longest first. The missing prefix leaves no gap entry. |
| `Webhook.Join` | functions/index.js:117-123 | `Array.prototype.join`: no parts give `''`, and otherwise the parts come in order with the separator between neighbours. |
| `Webhook.RenderMatch` | functions/index.js:112 | One hierarchy line: the book marker, the prefix, `: ` and the description. |
| `Webhook.Render` | functions/index.js:116-120 | The text of an outcome. `Found` gives the valid line, then the hierarchy lines joined by `\n`. `NotFound` gives the not-found line. |
| `Webhook.Responses` | functions/index.js:102-121 | `responses` after the `forEach`: the rendering of each candidate's outcome, in candidate order (`Webhook.ResponsesAt`). |
| `Webhook.FinalResponse` | functions/index.js:123 | `finalResponse`: the responses joined by a blank line, then a blank line and the closing question. |
| `Webhook.JoinAppend` | functions/index.js:123 | Joining two non-empty lists puts exactly one separator between their joins. |
| `Webhook.RenderStartsWithMarkAndCode` | functions/index.js:116-120 | A rendered outcome starts with its own marker (the two markers differ), followed by the cleaned code. |
| `Webhook.ResponsesAt` | functions/index.js:104-121 | There is one response per candidate, in candidate order, and each is the rendering of that candidate's outcome. |
| `Webhook.ResponsesAppend` | functions/index.js:104-121 | The responses to a concatenation of candidates are the two lists of responses, concatenated. |
| `Webhook.ResponsesIndependent` | functions/index.js:104-123 | Splitting the candidates in two splits the reply at a blank line. No candidate affects another's response. |
| `Webhook.Respond` | functions/index.js:102-121 | The `matches.forEach` loop produces exactly `Responses` of the candidates. |
| `Webhook.HandleRequest` | functions/index.js:83-123 | With no candidate the request goes to the fallback. Otherwise the reply is the responses joined by a blank line and followed by the closing line. A truthy original parameter gives a one-response reply. |

## Left out

- Express, body-parser and `app.listen` (functions/index.js:1-6,71,143-144) are HTTP plumbing.
- Reading the spreadsheet with `XLSX.readFile` and `sheet_to_json` (functions/index.js:13-15) is foreign library I/O. The rows are an input. Each cell is a string, as `raw: false` and `defval: ''` make it.
- All `console.log` and `console.error` calls are diagnostics only.
- `handleSmallTalk` and the Gemini call (functions/index.js:46-67,93-100) are network I/O. The model ends at the `SmallTalk` reply, which stands for "hand the text to the fallback".
- Platform detection, the choice of user text (functions/index.js:75-78) and the JSON envelopes (functions/index.js:96-98,126-137) are transport formatting. The user's text and the `hsn-code.original` parameter are inputs.
- An absent `hsn-code.original` is passed as `""`, which is falsy too. Non-string values of the parameter are not modelled. For those, `.replace` at functions/index.js:105 would throw.
- JavaScript enumerates integer-like property names before other names. The model takes each row's cells in the order `for...in` yields them and does not derive that order.
- A header that normalises to `__proto__` is not special in the model. In JavaScript, assigning a string to that property of `normalizedRow` is ignored.
- JavaScript strings are sequences of UTF-16 code units, while Dafny strings are sequences of Unicode scalar values. Neither regular expression nor `trim` treats a surrogate as a digit, a word character or white space, so the results agree. The white-space set is the ECMAScript one, with the Unicode space separators listed explicitly.
- `Resolver.OutcomeOf` is a pure function of the candidate and the index value. That the index is never mutated during resolution holds by construction and is not stated as a separate lemma.
