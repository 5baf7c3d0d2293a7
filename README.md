# Receipt-field validators and registry scraper, in Dafny

This project models the two local pieces of logic in a receipt-processing
tool for Dominican tax documents:

- **Cell validators** (`utils/dataframe_checks.py`). They check two fields
  of an extracted receipt. The RNC is the vendor's tax ID. The NCF is the
  fiscal document number. Each validator returns the empty style `""` for a
  valid cell and the fixed style `RED` for an invalid one.
  - `HighlightInvalidRnc` takes a cell that is `None`, a string or an
    integer, turns it into text as `str` does, deletes every hyphen, and
    then requires 9 or 11 digits.
  - `HighlightInvalidNcf` strips leading zeros and upper-cases the text.
    It then accepts `B` plus ten digits with series code 01–04 or 11–17,
    and `E` plus twelve digits with series code 31–34, 41 or 43–47.
  - Each verdict is proved equal to a declarative reading: `RncText` and
    `NcfNumber` on the normal form. The invariances, the series rules and
    the sample values are lemmas.
- **Registry lookup** (`utils/dgii.py`), with both HTTP exchanges
  abstracted away.
  - The search page is a map from input name to an optional `value`
    attribute.
  - `GetVal` reads one hidden token.
  - `PreparePostback` reads the three tokens in order, refuses an empty
    `__VIEWSTATE`, and builds the form fields and AJAX headers of the
    postback.
  - `ParseDgiiResponse` is a loop that fills the result map from the rows
    of the result table. Each row is its list of cell texts; `None` means
    the page has no result table. The loop is proved against `Scrape`,
    whose key set, last-row-wins rule and skipping of rows that do not
    have two cells are lemmas.
  - `ConsultaRnc` takes the fetched page and a function standing for the
    server's answer to the postback. It ties the outcome to
    `PreparePostback` and `Scrape`.

Python's string built-ins are modelled over ASCII in module `Builtins`:
`isdigit`, `isspace`, `replace(c, '')`, `str(int)`, `f'{i:02}'`, `lstrip`,
`upper`, `split()` and `" ".join`. `Collapse` is `" ".join(s.split())`.

Files:

- `wrappers.dfy`: the `Option` and `Result` types.
- `builtins.dfy`: the string built-ins.
- `dataframe_checks.dfy`: the validators.
- `dgii.dfy`: the registry lookup.

Three behaviours of the code are worth stating outright:

- The code deletes only `-` from a tax ID before testing it. Any other
  separator, a space or a dot, leaves the cell red (`RncOtherCharacterIsRed`).
- The code turns an absent token input into `""`. It fails only when
  `__VIEWSTATE` is empty, or when an input has no `value` attribute
  (`tag["value"]` raises). `EmptyTokensDoNotBlock` and
  `AbsentViewStateFails` state this behaviour.
- `str` of a negative integer starts with `-`, which the hyphen deletion
  removes. A negative integer is therefore judged by its magnitude
  (`RncInteger`).

## Model

| member | source | states |
|---|---|---|
| Builtins.IsDigit | utils/dataframe_checks.py:10 | defines `isdigit` on one ASCII character: `0` to `9` |
| Builtins.IsDigits | utils/dataframe_checks.py:10 | defines `digits.isdigit()` on a whole string: non-empty, and every character an ASCII digit |
| Builtins.UpperChar | utils/dataframe_checks.py:19 | defines `c.upper()` on one ASCII character: `a` to `z` become `A` to `Z`, every other character is kept; `Upper` is stated in its terms |
| Builtins.IsSpace | utils/dgii.py:90-91 | defines `isspace` on one ASCII character: the space and codes 9–13 and 28–31 |
| Builtins.Remove | utils/dataframe_checks.py:9 | defines `replace(c, '')` by deleting `c` character by character; `RemoveSpec` states its contract |
| Builtins.Listed | utils/dataframe_checks.py:23-28 | defines `code in [f'{i:02}' for i in range(lo, hi)]` as a scan of the list; `ListedRange` states its contract |
| Builtins.NatToStr | utils/dataframe_checks.py:9 | `str(n)` of a non-negative integer is a non-empty digit string, starts with `0` only for `0`, and reads back as `n` |
| Builtins.IntToStr | utils/dataframe_checks.py:9 | `str(i)` starts with `-` exactly when `i` is negative, deleting the `-` leaves `str(abs(i))`, and the text holds one `-` for a negative `i` and none otherwise |
| Builtins.NatToStrLength | utils/dataframe_checks.py:10 | `str(n)` has `k` digits exactly when `10^(k-1) <= n < 10^k` (`n < 10` for one digit) |
| Builtins.FormatTwoDigits | utils/dataframe_checks.py:23 | `f'{i:02}'` is a digit string that reads back as `i`, two characters long when `i < 100` |
| Builtins.TwoDigitValue | utils/dataframe_checks.py:22-23 | a two-digit code reads as ten times its first digit plus its second |
| Builtins.TwoDigitsDetermined | utils/dataframe_checks.py:22-23 | two two-digit codes with the same value are the same code |
| Builtins.ListedRange | utils/dataframe_checks.py:23-28 | a two-digit code is in `[f'{i:02}' for i in range(lo, hi)]` exactly when its value is in `lo..hi-1` |
| Builtins.RemoveSpec | utils/dataframe_checks.py:9 | `replace(c, '')` deletes every `c` and keeps every other character: length drops by the count of `c` |
| Builtins.RemoveCount | utils/dgii.py:90 | `replace(c, '')` keeps every other character as often as it occurs |
| Builtins.RemoveAppend | utils/dataframe_checks.py:9 | deleting a character distributes over concatenation |
| Builtins.RemoveAbsent | utils/dgii.py:90 | deleting a character that does not occur changes nothing |
| Builtins.LStrip | utils/dataframe_checks.py:19 | `lstrip(c)` leaves a suffix whose removed prefix is all `c` and whose first character is not `c` |
| Builtins.Upper | utils/dataframe_checks.py:19 | `upper()` keeps the length and upper-cases each character |
| Builtins.UpperDigits | utils/dataframe_checks.py:19 | digits are unchanged by `upper()` |
| Builtins.LeadingWord | utils/dgii.py:90-91 | the first word is a prefix without whitespace, followed by the end or by whitespace |
| Builtins.Split | utils/dgii.py:90-91 | `split()` yields non-empty whitespace-free words made of the input's characters which, written one after another, are exactly the input's non-whitespace characters in order |
| Builtins.Join | utils/dgii.py:90-91 | `" ".join` consists of spaces and the words' characters |
| Builtins.Collapse | utils/dgii.py:90-91 | `" ".join(s.split())` has no leading, trailing or repeated whitespace, splits into the same words as `s`, adds only spaces, and keeps every non-whitespace character of `s` in order |
| Builtins.JoinNonSpace | utils/dgii.py:90-91 | deleting the spaces of `" ".join(words)` leaves the words run together |
| Builtins.NonSpaceAppend | utils/dgii.py:90-91 | deleting whitespace distributes over concatenation |
| Builtins.NonSpaceOfWord | utils/dgii.py:90-91 | deleting whitespace keeps a text that has none |
| Builtins.NonSpaceCount | utils/dgii.py:90-91 | deleting whitespace keeps every other character as often as it occurs |
| Builtins.JoinCollapsed | utils/dgii.py:90-91 | joining whitespace-free words gives a collapsed text that starts and ends with a non-space when there is a word |
| Builtins.LeadingWordOf | utils/dgii.py:90-91 | a whitespace-free prefix followed by whitespace is the leading word |
| Builtins.SplitJoin | utils/dgii.py:90-91 | splitting the join of whitespace-free words gives the words back; for one word, a word splits into itself |
| Builtins.SplitWordFirst | utils/dgii.py:90-91 | a word followed by the end or by whitespace is the first word of `split()`, and the rest splits on its own |
| Builtins.SplitSpaceFirst | utils/dgii.py:90-91 | a leading whitespace character adds no word to `split()` |
| Builtins.SplitAtSpace | utils/dgii.py:90-91 | `split()` breaks at every whitespace character: the words of `a + [c] + b` are the words of `a` followed by those of `b`, which with `SplitJoin` fixes `split()` on every input |
| Builtins.CollapseFixpoint | utils/dgii.py:90-91 | collapsing leaves a text unchanged exactly when it is already collapsed |
| Builtins.CollapseIdempotent | utils/dgii.py:90-91 | collapsing twice is collapsing once |
| DataframeChecks.Truthy | utils/dataframe_checks.py:7 | defines Python truthiness of a cell: `None`, `""` and `0` are falsy |
| DataframeChecks.Str | utils/dataframe_checks.py:9 | defines `str(val)`: `"None"`, the string itself, or `IntToStr` |
| DataframeChecks.HighlightInvalidRnc | utils/dataframe_checks.py:5-12 | the result is `""` or the red style, and `""` exactly when the text of the cell is hyphens and digits with 9 or 11 digits |
| DataframeChecks.FalsyTextRejected | utils/dataframe_checks.py:7-8 | the texts of the falsy cells (`"None"`, `""`, `"0"`) are never acceptable |
| DataframeChecks.HyphenFreeDigits | utils/dataframe_checks.py:9-10 | deleting the hyphens leaves 9 or 11 digits exactly when the text is hyphens and digits with 9 or 11 digits |
| DataframeChecks.RncFalsyIsRed | utils/dataframe_checks.py:7-8 | `None`, `""` and `0` are red |
| DataframeChecks.RncHyphenInsensitive | utils/dataframe_checks.py:9-12 | inserting a hyphen anywhere in a string cell leaves the verdict unchanged |
| DataframeChecks.HyphenDeleted | utils/dataframe_checks.py:9 | the hyphen deletion erases an inserted hyphen |
| DataframeChecks.TwoHyphensDeleted | utils/dataframe_checks.py:9 | the hyphen deletion erases two inserted hyphens |
| DataframeChecks.RncOtherCharacterIsRed | utils/dataframe_checks.py:9-11 | any character other than a digit or `-` makes the cell red |
| DataframeChecks.RncOnlyHyphensIsRed | utils/dataframe_checks.py:9-11 | a text made only of hyphens is red |
| DataframeChecks.RncInteger | utils/dataframe_checks.py:9-12 | an integer cell is valid exactly when its magnitude has 9 or 11 digits |
| DataframeChecks.RncDigitString | utils/dataframe_checks.py:10-12 | a digit string is valid exactly when it has 9 or 11 digits |
| DataframeChecks.RncSampleRegistry | utils/dgii.py:98 | the registry's sample RNC `131563856` is valid |
| DataframeChecks.RncSampleInteger | utils/prompts.py:97 | the extraction prompt's sample integer `130123456` is valid |
| DataframeChecks.RncSampleHyphenated | utils/dataframe_checks.py:9-12 | `001-1234567-8` is valid |
| DataframeChecks.RncSampleTenDigits | utils/dataframe_checks.py:10-11 | a 10-digit ID is red |
| DataframeChecks.RncSampleTwelveDigits | utils/dataframe_checks.py:10-11 | a 12-digit ID is red |
| DataframeChecks.RncSampleSpaced | utils/dataframe_checks.py:9-11 | a space-separated ID is red |
| DataframeChecks.NormalizeNcf | utils/dataframe_checks.py:19 | defines `val.lstrip('0').upper()`; `NormalizeIdempotent` and `UpperLStripCommute` state its properties |
| DataframeChecks.FullMatch | utils/dataframe_checks.py:21-26 | defines `re.fullmatch(letter + r'\d{count}', s)`: the letter, then exactly `count` ASCII digits |
| DataframeChecks.HighlightInvalidNcf | utils/dataframe_checks.py:15-31 | the result is `""` or the red style, and `""` exactly when the cell is a string whose normal form is `B` plus ten digits with code 01–04 or 11–17, or `E` plus twelve digits with code 31–34, 41 or 43–47 |
| DataframeChecks.NcfNonStringIsRed | utils/dataframe_checks.py:17-18 | a non-string cell, `None` or a number, is red |
| DataframeChecks.CodeValue | utils/dataframe_checks.py:22 | the series code's value is below 100 |
| DataframeChecks.SeriesCode | utils/dataframe_checks.py:21-22 | the code `ncf[1:3]` of a matched number is two digits whose value is the series code value |
| DataframeChecks.BSeriesCodes | utils/dataframe_checks.py:23 | the B-series code lists hold exactly the codes of value 1–4 and 11–17 |
| DataframeChecks.ESeriesCodes | utils/dataframe_checks.py:28 | the E-series code lists hold exactly the codes of value 31–34, 41 and 43–47 |
| DataframeChecks.Code41 | utils/dataframe_checks.py:28 | a two-digit code is `41` exactly when its value is 41 |
| DataframeChecks.LStripZeros | utils/dataframe_checks.py:19 | leading zeros disappear under `lstrip('0')` |
| DataframeChecks.NcfZeroPadding | utils/dataframe_checks.py:19 | prepending zeros never changes the verdict |
| DataframeChecks.UpperLStripCommute | utils/dataframe_checks.py:19 | stripping zeros and upper-casing commute |
| DataframeChecks.NcfCaseInsensitive | utils/dataframe_checks.py:19 | strings that upper-case alike get the same verdict |
| DataframeChecks.NormalizeIdempotent | utils/dataframe_checks.py:19 | normalising twice is normalising once |
| DataframeChecks.NormalOfLetterDigits | utils/dataframe_checks.py:19 | zeros, a letter and digits normalise to the upper-case letter and the digits |
| DataframeChecks.LStripZerosBefore | utils/dataframe_checks.py:19 | zeros before a non-zero character are exactly what `lstrip('0')` removes |
| DataframeChecks.UpperLetterDigits | utils/dataframe_checks.py:19 | a letter and digits upper-case to the upper-case letter and the same digits |
| DataframeChecks.NcfVerdict | utils/dataframe_checks.py:19-31 | the verdict is read off the normal form |
| DataframeChecks.BNumber | utils/dataframe_checks.py:21-23 | `B` and ten digits is a valid number exactly when the first two digits are 01–04 or 11–17 |
| DataframeChecks.ENumber | utils/dataframe_checks.py:26-28 | `E` and twelve digits is a valid number exactly when the first two digits are 31–34, 41 or 43–47 |
| DataframeChecks.NcfSeriesB | utils/dataframe_checks.py:19-25 | zeros, `B` or `b` and ten digits are valid exactly when the first two digits are 01–04 or 11–17, and red otherwise |
| DataframeChecks.NcfSeriesE | utils/dataframe_checks.py:19-30 | zeros, `E` or `e` and twelve digits are valid exactly when the first two digits are 31–34, 41 or 43–47, and red otherwise |
| DataframeChecks.NcfOtherLetterIsRed | utils/dataframe_checks.py:21-31 | a first significant character other than `B` or `E` in either case makes the number red |
| DataframeChecks.LStripAppend | utils/dataframe_checks.py:19 | text appended after a significant character survives `lstrip('0')` |
| DataframeChecks.NcfTrailingIsRed | utils/dataframe_checks.py:21-31 | anything appended to a valid number makes it red |
| DataframeChecks.NcfSamplePrompt | utils/prompts.py:20 | the prompt's sample `B0100055276` is valid |
| DataframeChecks.NcfSamplePadded | utils/dataframe_checks.py:19-24 | `00b0100055276` is valid |
| DataframeChecks.NcfSampleCode05 | utils/dataframe_checks.py:23-25 | B-series code 05 is red |
| DataframeChecks.NcfSampleCode10 | utils/dataframe_checks.py:23-25 | B-series code 10 is red |
| DataframeChecks.NcfSampleCode99 | utils/dataframe_checks.py:23-25 | B-series code 99 is red |
| DataframeChecks.NcfSampleCode31 | utils/dataframe_checks.py:28-29 | E-series code 31 is valid |
| DataframeChecks.NcfSampleCode35 | utils/dataframe_checks.py:28-30 | E-series code 35 is red |
| DataframeChecks.NcfSampleCode42 | utils/dataframe_checks.py:28-30 | E-series code 42 is red |
| Dgii.GetVal | utils/dgii.py:37-39 | an absent input yields `""`, an input with a value yields it, an input without a value attribute is an error |
| Dgii.Payload | utils/dgii.py:52-64 | defines the eleven form fields of the postback; `PostbackPayload` and `PayloadKeys` state their contents |
| Dgii.AjaxHeaders | utils/dgii.py:67-73 | defines the five AJAX headers; `PostbackHeaders` states their contents |
| Dgii.PreparePostback | utils/dgii.py:41-73 | the postback is built exactly when the three tokens can be read and `__VIEWSTATE` is not empty; otherwise the first unreadable token, or else the empty `__VIEWSTATE`, is reported |
| Dgii.PostbackPayload | utils/dgii.py:52-64 | the payload carries the RNC and the three tokens unchanged under their names, the fixed event fields, and exactly eleven fields |
| Dgii.PayloadKeys | utils/dgii.py:52-64 | the payload's field names are exactly the eleven form fields |
| Dgii.PostbackHeaders | utils/dgii.py:67-73 | the AJAX headers reuse the page request's user agent, refer to the page and ask for a partial update |
| Dgii.EmptyTokensDoNotBlock | utils/dgii.py:42-49 | empty or absent generator and validation tokens do not block the postback and are sent as `""` |
| Dgii.AbsentViewStateFails | utils/dgii.py:37-49 | an absent or empty `__VIEWSTATE` fails at the gate |
| Dgii.CleanKey | utils/dgii.py:90 | a key has no `:` and no leading, trailing or repeated whitespace, splits into the same words as the cell without its colons, and its non-whitespace characters are exactly those of that text, in order |
| Dgii.CleanValue | utils/dgii.py:91 | a value has no leading, trailing or repeated whitespace, splits into the same words as the cell, and its non-whitespace characters are exactly those of the cell, in order |
| Dgii.CleanKeyIdempotent | utils/dgii.py:90 | cleaning a key twice is cleaning it once |
| Dgii.CleanValueIdempotent | utils/dgii.py:91 | cleaning a value twice is cleaning it once |
| Dgii.CleanValueKeepsColons | utils/dgii.py:91 | a value has exactly as many colons as its cell, and an already collapsed value is kept as is |
| Dgii.CleanKeyKeepsText | utils/dgii.py:90 | a key has every character of its cell other than colons and whitespace, as often as the cell |
| Dgii.ScrapeRows | utils/dgii.py:84-92 | defines the map the loop builds, row by row, with later two-cell rows overwriting earlier ones; `ScrapeKeys`, `ScrapeLastWins` and `ScrapeIgnoresOtherRows` characterise it |
| Dgii.Scrape | utils/dgii.py:82-93 | defines the result of a page: empty without the result table, `ScrapeRows` of its rows otherwise |
| Dgii.ScrapeKeys | utils/dgii.py:86-92 | the result's keys are exactly the cleaned left cells of the two-cell rows |
| Dgii.ScrapeLastWins | utils/dgii.py:92 | a two-cell row whose key no later two-cell row shares gives that key its cleaned value |
| Dgii.ScrapeIgnoresOtherRows | utils/dgii.py:87-88 | a row that does not have exactly two cells changes nothing, wherever it is |
| Dgii.ParseDgiiResponse | utils/dgii.py:80-93 | the loop computes `Scrape` of the table: empty without a table, keyed by the cleaned left cells, with clean keys and values |
| Dgii.ConsultaRnc | utils/dgii.py:11-77 | a failed gate is reported as it is; otherwise the result is the scrape of the server's answer to the prepared postback |

## Left out

- The user interface in `streamlit_app.py`, the recognition-model calls and the JSON decoding of their output: UI and foreign-service plumbing.
- `utils/prompts.py`: prompt text only. Its sample values appear as lemmas.
- The HTTP session: the GET and the POST, cookies, `verify=False` and the warning filter. The page is a parameter, and the server's answer is a function parameter of `ConsultaRnc`.
- The browser header values of the page request other than the user agent: constants with no logic.
- HTML parsing. The model does not include `find` (first match), `find_all` (which also descends into nested tables), `get_text(strip=True)` joining of text fragments, or attributes other than `value`. The page is reduced to its first input of each name, and the table to rows of cell texts.
- `st.cache_data` memoisation of the validators: it does not change their results.
- The `__main__` demonstration and its timing.
- HighlightInvalidRnc: integers over 4300 digits are not modelled as an error. Python 3.11 and later raise `ValueError` in `str(val)` for them (the `sys.get_int_max_str_digits` limit); the model's `IntToStr` has no limit, so `HighlightInvalidRnc` returns the red style for such a cell.
- ParseDgiiResponse: the insertion order of the returned dict is not modelled. Python keeps a repeated key at its first position while the last value wins; `map<string, string>` has no order, so the model states the key set and the values only.
- Cells of other Python types, such as floats, NaN and booleans. In the model a cell is `None`, a string or an integer.
- Unicode: digits, whitespace and case mapping are ASCII only. Python's `isdigit`, `\d`, `isspace` and `upper` accept or change more characters.
- Batch concurrency, lookup caching and retries: not present in the modelled code.
