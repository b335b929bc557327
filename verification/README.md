# JSON and HTML formatter pages: a Dafny model

This project models the logic of a small formatter web app with two pages. It covers the parts of that logic that are not browser or library calls.

- **The JSON page.**
  - Its three handlers, Format, Minify and Validate, refuse blank input with a fixed message.
  - They parse the input and show the value serialised. With the "sort keys" option on, Format and Minify sort keys at every depth.
  - On a parse error they report the parser's message, enriched with the line and column of the offending offset when the message names one.
  - The key sorter (`sortObjectDeep`) is modelled in `deep_sort.dfy` over `key_order.dfy`.
  - The offset-to-position scan (`getLineCol`) is in `line_col.dfy`.
  - The error rewriter (`enhanceJsonError`) is in `json_error.dfy`. It contains a scanner for the regular expression `/position\s+(\d+)/i`, proved against a declarative statement of leftmost, greedy matching.
  - The handlers are in `json_page.dfy`.
- **The HTML page.**
  - Its Minify handler refuses blank input.
  - Otherwise it runs three rewrites in turn: remove whitespace between `>` and `<`, collapse whitespace runs of two or more to one space, and trim both ends.
  - This is `html_minify.dfy`.
- `text.dfy` holds what both pages share, all as JavaScript defines them:
  - the whitespace class used by `\s` and by `trim`;
  - `trim` and the blank test `!s.trim()`;
  - decimal numerals.

A JSON value is an immutable tree. An object is its member sequence in enumeration order. `WellFormed` says that no object repeats a key, which holds for everything `JSON.parse` returns.

Two abstractions cover what the model cannot see:

- **Collation.** `localeCompare` is locale dependent, so it is a parameter `lt` ("sorts before"). Some properties assume a strict weak order, which lets two different keys tie. Others assume a strict total order, in which no two keys tie.
- **Parsing and serialising.** `JSON.parse` and `JSON.stringify` are built-ins. The parse outcome and the serialiser are parameters of the handlers. The serialiser may fail, which stands for anything thrown after a successful parse.

The central results are these:

- **Deep sorting.**
  - It keeps content (`Equiv`, equality up to member order).
  - It leaves every object's keys strictly ascending.
  - It is stable, as `Array.prototype.sort` is: keys the collation ties keep their input order.
  - It is idempotent, even under a collation with ties.
  - Two well-formed values have the same sorted form exactly when they have the same content.
- **`getLineCol`.** The loop computes a closed form: one line per line feed before the offset, and one column per character since the last line feed. The offset is clamped to the text.
- **`enhanceJsonError`.** It reports the line and column of the leftmost `position N`, and falls back to the plain prefix exactly when there is none.
- **HTML minifying.** The output has no whitespace at either end, no two adjacent whitespace characters, and no whitespace between `>` and `<`. It is no longer than the input, and it keeps the non-whitespace characters in order. Minifying is idempotent.

## Model

| member | source | states |
|---|---|---|
| Text.Trim | src/app/html-formatter/page.tsx:77 | the result is the slice of the input that starts after its leading whitespace; everything cut from the end is whitespace, and the result neither starts nor ends with whitespace |
| Text.IsBlank | src/app/page.tsx:54 | `!s.trim()` holds exactly when every character of the input is whitespace |
| Text.RemoveWhitespaceEmpty | src/app/html-formatter/page.tsx:68 | no non-whitespace text is left exactly when the input is all whitespace, that is, blank |
| Text.TrimKeepsText | src/app/html-formatter/page.tsx:77 | trimming drops whitespace only: the non-whitespace characters survive in order |
| Text.DecimalRoundTrip | src/app/page.tsx:195 | reading back the numeral a template literal renders for a line or column gives that number |
| Text.DecimalCanonical | src/app/page.tsx:193 | a digit string without leading zeros is exactly the rendering of its value, so the rendering is the only such numeral |
| JsonValue.Lookup | src/app/page.tsx:182 | property access finds nothing exactly when the key is absent, and otherwise finds a value the object holds under that key |
| JsonValue.LookupMember | src/app/page.tsx:182 | with distinct keys, looking up a member's key yields that member's value |
| KeyOrder.SortByKey | src/app/page.tsx:179-180 | reordering the keys is a permutation of the members |
| KeyOrder.SortByKeyAscending | src/app/page.tsx:179-180 | over a strict total order and distinct keys, the keys come out strictly ascending |
| KeyOrder.SortByKeyNonDescending | src/app/page.tsx:179-180 | over a strict weak order, no key of the result sorts before a key listed ahead of it, even when keys tie |
| KeyOrder.SortByKeyOfOrdered | src/app/page.tsx:179-180 | members already in order, with no key sorting before an earlier one, are left where they are, whatever the comparator |
| KeyOrder.SortByKeyStable | src/app/page.tsx:180 | the sort is stable: for any key, the members whose keys the collation ties with it come out in their input order |
| KeyOrder.AscendingArrangementUnique | src/app/page.tsx:180 | two ascending arrangements of the same members are equal, so no sort can disagree with another |
| KeyOrder.SortByKeyUnique | src/app/page.tsx:180 | any permutation of the members with ascending keys is the one the sort produces |
| DeepSort.SortDeep | src/app/page.tsx:173-187 | the result has the input's kind; a primitive comes back unchanged, an array keeps its length, an object keeps its size and its key set |
| DeepSort.SortValues | src/app/page.tsx:181-183 | each member keeps its key in its place; the key set and key distinctness are preserved |
| DeepSort.SortDeepArray | src/app/page.tsx:174-175 | an array keeps its length and order, and element i of the result is element i of the input, deep-sorted |
| DeepSort.SortDeepObject | src/app/page.tsx:177-184 | the sorted object has exactly the input's keys, each holding the deep-sorted form of its original value; any other key is absent |
| DeepSort.SortDeepKeepsContent | src/app/page.tsx:173-187 | deep sorting a well-formed value changes no content: the result is `Equiv` to the input |
| DeepSort.SortDeepSorted | src/app/page.tsx:179-180 | over a strict total order, every object of the result, at every depth, has strictly ascending keys, and the result is well formed |
| DeepSort.SortDeepOrdered | src/app/page.tsx:173-187 | over a strict weak order, every object of the result, at every depth, lists no key after one that sorts after it |
| DeepSort.SortDeepOfSorted | src/app/page.tsx:173-187 | a value already in key order at every depth is returned unchanged, whatever the comparator |
| DeepSort.SortDeepIdempotent | src/app/page.tsx:173-187 | over a strict weak order, ties included, sorting the sorted value gives the same value |
| DeepSort.EquivSymmetric | src/app/page.tsx:173-187 | equality up to member order is symmetric on well-formed values |
| DeepSort.EquivTransitive | src/app/page.tsx:173-187 | equality up to member order is transitive on well-formed values |
| DeepSort.EquivSortsAlike | src/app/page.tsx:173-187 | values with the same content have the same sorted form |
| DeepSort.SortDeepDecidesEquiv | src/app/page.tsx:173-187 | two well-formed values have the same content exactly when their sorted forms are equal |
| DeepSort.SortDeepExample | src/app/page.tsx:173-187 | under any collation that puts "a" before "b" and "c" before "d", `{"b":1,"a":{"d":2,"c":3}}` sorts to `{"a":{"c":3,"d":2},"b":1}` |
| DeepSort.SortDeepTieExample | src/app/page.tsx:179-180 | under a collation that ties "a" and "b", `{"b":1,"a":2}` keeps its order |
| ProtoKey.SortDeepAsWritten | src/app/page.tsx:177-184 | the sorter as written: a leaf comes back unchanged, and an object comes back with exactly the input's keys except `__proto__` |
| ProtoKey.AsWrittenAgrees | src/app/page.tsx:173-187 | on a value with no `__proto__` key anywhere, the code as written sorts exactly like `DeepSort.SortDeep` |
| ProtoKey.ProtoKeyLost | src/app/page.tsx:178-182 | `{"__proto__": 1}` comes back from the code as written as `{}`, without the content of the input, while the intended sorter keeps it |
| LineCol.Locate | src/app/page.tsx:198-211 | line and column are at least 1 and grow by at most the number of characters scanned |
| LineCol.LocateStep | src/app/page.tsx:202-208 | one more character scanned: a line feed gives the next line at column 1, anything else the next column |
| LineCol.GetLineCol | src/app/page.tsx:198-211 | the loop returns the closed form: 1 + the line feeds before the clamped offset, and 1 + the characters since the last of them |
| LineCol.LocateClamps | src/app/page.tsx:201 | an offset at or past the end gives the position of the end; an offset at or before 0 gives line 1, column 1 |
| LineCol.LocateStrictlyIncreasing | src/app/page.tsx:198-211 | a later offset within the text lies at a strictly later position (line first, then column) |
| LineCol.LocateExamples | src/app/page.tsx:198-211 | offset 0 is (1,1); offset 4 in `"ab\ncd"` is (2,2); offset 100 in `"abc"` is (1,4) |
| JsonError.MatchesAtExactly | src/app/page.tsx:191 | the scanner's test at a start position passes exactly when the pattern matches there |
| JsonError.MatchPinned | src/app/page.tsx:191-193 | a match at a position is the one the scanner sees, and its captured offset is the number the scanner reads |
| JsonError.SearchFromNone | src/app/page.tsx:191-192 | the scan from a position finds nothing exactly when no match starts at or after it |
| JsonError.SearchFromFirst | src/app/page.tsx:191-193 | when the leftmost match from a position is known, the scan returns its captured offset |
| JsonError.FindPosition | src/app/page.tsx:191-193 | no result exactly when the message has no match; otherwise the offset captured by the leftmost match |
| JsonError.LocatedReport | src/app/page.tsx:195 | the located report opens with "Invalid JSON at line " and ends with the parser's message |
| JsonError.LocatedReportReadsBack | src/app/page.tsx:195 | the numbers read back from where the line and column numerals start are the line and column |
| JsonError.LocatedReportInjective | src/app/page.tsx:195 | two located reports are equal only for the same position and the same message |
| JsonError.EnhanceJsonError | src/app/page.tsx:189-196 | the report starts with "Invalid JSON" and ends with the message; it is "Invalid JSON: " + message exactly when there is no match, and otherwise names the line and column of the leftmost match's offset in the source |
| JsonPage.ErrorMessage | src/app/page.tsx:67 | the reported message is never empty, and a non-empty message is kept |
| JsonPage.Shown | src/app/page.tsx:61 | without the sort option, or for Validate, the shown value is the parsed value |
| JsonPage.HandleJson | src/app/page.tsx:53-71 | blank input gets the blank-input message and an empty output, and nothing else does; the error is empty exactly when the input is not blank, parses and serialises; any error empties the output and starts with "Invalid JSON"; a parse failure, or a throw from the sort or the serialiser, is reported as `enhanceJsonError` of its message, with "Invalid JSON" for an empty one; success shows the serialised value |
| JsonPage.ShownSorted | src/app/page.tsx:61 | with sorting on, the shown value has the parsed content with ascending keys at every depth, and two inputs show the same value exactly when they differ only in key order |
| JsonPage.FormatMinifyAgree | src/app/page.tsx:73-91 | on parsed input, Minify shows what Format shows at indent 0 |
| JsonPage.ValidateIgnoresSorting | src/app/page.tsx:117-135 | Validate's result does not depend on the sort option |
| JsonPage.FailuresAgree | src/app/page.tsx:54-58 | on blank input or a parse failure, all three handlers leave the same view |
| HtmlMinify.StripTagGaps | src/app/html-formatter/page.tsx:75 | the first rewrite never lengthens the text and keeps its first character |
| HtmlMinify.StripTagGapsNoGap | src/app/html-formatter/page.tsx:75 | after the first rewrite no `>` is followed by whitespace and then `<` |
| HtmlMinify.StripTagGapsKeepsText | src/app/html-formatter/page.tsx:75 | the first rewrite removes whitespace only |
| HtmlMinify.StripTagGapsOfNoGap | src/app/html-formatter/page.tsx:75 | text without such a gap passes the first rewrite unchanged |
| HtmlMinify.CollapseRuns | src/app/html-formatter/page.tsx:76 | the second rewrite never lengthens the text and keeps whether it starts with whitespace |
| HtmlMinify.CollapseRunsNoDouble | src/app/html-formatter/page.tsx:76 | after the second rewrite no two whitespace characters are adjacent |
| HtmlMinify.CollapseRunsNoGap | src/app/html-formatter/page.tsx:75-76 | the second rewrite creates no gap between `>` and `<` |
| HtmlMinify.CollapseRunsKeepsText | src/app/html-formatter/page.tsx:76 | the second rewrite changes whitespace only |
| HtmlMinify.CollapseRunsOfNoDouble | src/app/html-formatter/page.tsx:76 | text without adjacent whitespace passes the second rewrite unchanged |
| HtmlMinify.Minify | src/app/html-formatter/page.tsx:74-77 | the output has no whitespace at either end, no two adjacent whitespace characters and no whitespace between `>` and `<`; it is no longer than the input and has the input's non-whitespace characters in order |
| HtmlMinify.MinifyIdempotent | src/app/html-formatter/page.tsx:74-77 | minifying minified text changes nothing |
| HtmlMinify.MinifyEmptyIffBlank | src/app/html-formatter/page.tsx:68-77 | the output is empty exactly when the input is blank |
| HtmlMinify.HandleHtmlMinify | src/app/html-formatter/page.tsx:67-85 | blank input, and only blank input, gets "Please paste some HTML code first." and an empty output; otherwise no error and the output is the minified input: non-empty, no whitespace at either end, no two adjacent whitespace characters, no whitespace between `>` and `<`, no longer than the input, and the input's non-whitespace text in order |

## Left out

- `JSON.parse` and `JSON.stringify` (src/app/page.tsx:60-62, 83, 124-126) are JavaScript built-ins. The parse outcome and the serialiser are parameters of `JsonPage.HandleJson`, and a parsed value is assumed to have distinct keys.
- JsonPage.HandleJson: when the call stack runs out is up to the JavaScript engine. The `RangeError` that the recursive `sortObjectDeep` or `JSON.stringify` throws on deeply nested input is the serialiser parameter's `Failure`; the model's key sort itself never fails.
- Exact `localeCompare` collation (src/app/page.tsx:180) depends on ICU and the locale. It is the parameter `lt`. A real collation can call two different strings equal. The model's sort, like the page's, is stable and keeps such keys in their input order, but the uniqueness results (`KeyOrder.SortByKeyUnique`, `DeepSort.SortDeepDecidesEquiv`) assume a strict total order and do not apply to such keys.
- Enumeration order of integer-like keys. A JavaScript object lists keys such as `"10"` and `"9"` first, in numeric order, whatever order they were assigned in. The model's object is the member sequence the sorter builds, so for such keys the real serialised order can differ from it.
- UTF-16: strings are sequences of Dafny characters (code points), while the page counts UTF-16 code units both in the parser's `position N` and in its `charAt` scan. `LineCol.Locate` reads N as a count of characters, so after a character outside the Basic Multilingual Plane the model scans further into the text than the page does, and the reported line as well as the column can differ: for "\u{1F600}\nab\nc" at position 5 the model gives line 3, column 1 where the page gives line 2, column 3.
- JsonError.FindPosition: the captured digits are read as an exact natural number, while `Number(...)` rounds past 2^53. Every such value lies beyond the end of any real text, so `getLineCol` clamps it to the end either way.
- The HTML beautifier `js-beautify` (src/app/html-formatter/page.tsx:19, 44-65) is a foreign library, and DOMParser validation (lines 109-129) is a browser API.
- The `catch` around the HTML minify pipeline (src/app/html-formatter/page.tsx:80-84) is not modelled: the string replacements and `trim` cannot throw.
- Clipboard, download, upload (FileReader) and `alert` in both pages are I/O. Clear, React state and rendering, and the layout, navigation, about, privacy and terms pages are UI.
- The contact form's mailto link depends on `encodeURIComponent` and `window.location`. The ad banner depends on environment glue.
- JsonPage.HandleJson: the `alert("Valid JSON ✔")` of Validate is not modelled, because it is a browser call with no effect on the view.

## Findings

| source | as written | input that shows it | evidently intended | confidence | as-written member | corrected member |
|---|---|---|---|---|---|---|
| src/app/page.tsx:178-182 | the sorted copy is filled by assignment into an object literal, and assigning the key `__proto__` calls the inherited prototype setter instead of creating an own property | `{"__proto__": 1}` with "sort keys" on is shown as `{}` | the sorted object keeps every key of the input, as it does with sorting off | high (not executed) | ProtoKey.ProtoKeyLost | DeepSort.SortDeepKeepsContent |

The handlers in `json_page.dfy` use the intended sorter, `DeepSort.SortDeep`. `ProtoKey.SortDeepAsWritten` models the code as written, and `ProtoKey.AsWrittenAgrees` shows that the two differ only on values that contain a `__proto__` key.
