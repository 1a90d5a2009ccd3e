# Fact lookup of the AI fact short-video generator

This project models the fact lookup of the FastAPI service in `main.py`: the
table of five fact categories and their prompts (`PROMPTS`), the category
check that `get_facts` makes before it contacts the fact service, and the
extractor that turns the service's free-text reply into at most five short
facts.

The extractor, as `main.py` writes it, strips the reply and splits it at
`'\n'`; strips each line; then calls `lstrip` once for each of the sixteen
characters of the string `"â€¢-0123456789. "`, in that order; keeps the line
when its length is strictly between 10 and 120; and stops once five lines are
kept, returning `facts[:5]`. The first three characters of that string are
the UTF-8 bytes of the bullet U+2022 read as Windows-1252 (U+00E2, U+20AC,
U+00A2), and the model peels exactly those three characters.

Modules:

- `Text` (`text.dfy`): Python's `str.strip()`, `str.lstrip(chars)`,
  `str.rstrip(chars)` and `str.split(sep)` for a one-character separator,
  on sequences of code points, with
  `Whitespace` the 29 code points for which `str.isspace()` holds. `Split`
  is proved to be undone by `Join` and vice versa.
- `Prompts` (`prompts.dfy`): the `PROMPTS` table and `PromptFor`, the
  `PROMPTS.get(category)` / `if not prompt` check.
- `Facts` (`facts.dfy`): the defining functions `Peel`, `Clean`,
  `Lines`, `CleanAll`, `Kept`, `Capped` and `FactsOf` (the reply's facts are
  "clean every line, keep the plausible ones, take five"); the two loops of
  `get_facts` as the methods `CleanLine` and `FirstFacts`, each proved equal
  to its defining function, and `ExtractFacts`, which splits the reply and
  runs the outer loop; and lemmas about what comes out.
- `Endpoint` (`endpoint.dfy`): `get_facts` itself, with the fact service as a
  function parameter from the prompt to its reply (an HTTP status and text,
  or a raised exception's message).

Cleaning is not idempotent (`CleanNotIdempotent`): `"1-fact"` cleans to
`"-fact"` because `'-'` is peeled before the digits, and `"-fact"` cleans
again to `"fact"`. The model therefore states no idempotence.

## Model

| member | source | states |
|---|---|---|
| Text.LStrip | main.py:40 | `lstrip` never lengthens a string, and what is left does not start with a stripped character |
| Text.LStripDrops | main.py:40 | `lstrip` leaves a suffix of the string, and every character it removed is one of the stripped characters |
| Text.RStrip | main.py:38 | the trailing half of `strip()`: `rstrip` never lengthens a string, and what is left does not end with a stripped character |
| Text.RStripDrops | main.py:38 | the trailing half of `strip()`: `rstrip` leaves a prefix of the string, and every character it removed is one of the stripped characters |
| Text.Strip | main.py:38 | `strip()` never lengthens a string, and a non-empty result neither starts nor ends with whitespace |
| Text.StripSlice | main.py:38 | `strip()` is one contiguous slice of the string, and every character outside that slice is whitespace |
| Text.Split | main.py:35 | `split('\n')` gives at least one piece, no piece contains the separator, and joining the pieces with it gives back the string |
| Text.SplitAfterPiece | main.py:35 | splitting a string that begins with a separator-free piece glues that piece to the front of the rest's first piece |
| Text.SplitJoin | main.py:35 | splitting undoes joining, for any non-empty list of separator-free pieces |
| Prompts.PromptFor | main.py:24-27 | a category is accepted exactly when it is one of the five known ones, and then its prompt is its own non-empty table entry; any other category gets the message "Invalid category" |
| Facts.Plausible | main.py:41 | the length test `10 < len(cleaned) < 120`; a line that passes it is non-empty |
| Facts.Peel | main.py:39-40 | the `for prefix in ...: cleaned = cleaned.lstrip(prefix)` loop as a function: it never lengthens the line, and what is left does not start with the last character peeled |
| Facts.Clean | main.py:38-40 | a line stripped and then peeled: never longer than the line, and never starting with a space because ' ' is peeled last |
| Facts.Lines | main.py:35 | `response.text.strip().split('\n')`: at least one line, no line contains '\n', and joining the lines with '\n' gives back the stripped reply |
| Facts.CleanAll | main.py:37-40 | every line gives exactly one cleaned line |
| Facts.Kept | main.py:41-42 | the length filter keeps no more strings than it is given, and every kept string has a length strictly between 10 and 120 |
| Facts.Capped | main.py:45 | `facts[:5]` is the first five facts, or all of them when there are fewer |
| Facts.FactsOf | main.py:35-45 | the facts of a reply are at most five, each of a length strictly between 10 and 120 |
| Facts.KeptSources | main.py:37-42 | the kept strings come from strictly increasing positions, each kept string is the one at its position, and a position is used exactly when its string passes the filter: nothing plausible is dropped, nothing is added, order is kept |
| Facts.KeptStep | main.py:37-42 | cleaning one more line appends it to the kept strings exactly when it passes the filter, and otherwise changes nothing |
| Facts.KeptPrefix | main.py:37-44 | what is kept from the first lines is the start of what is kept from all of them |
| Facts.StopEarly | main.py:43-45 | stopping after some lines, because none are left or because five are kept, returns the same as filtering every line and taking the first five |
| Facts.PeelRemovesPrefix | main.py:39-40 | the peel loop leaves a suffix of the line and removes only peel characters |
| Facts.PeelAppend | main.py:39-40 | peeling with one character string and then another is peeling with the two joined |
| Facts.PeelUntouched | main.py:39-40 | a line that does not start with any peel character is left unchanged |
| Facts.PeelOnlyAt | main.py:39-40 | when only one character of the order applies to a line's front (no earlier one matches its first character, no later one matches what that character's `lstrip` leaves), the whole peel is that single `lstrip` |
| Facts.CleanShape | main.py:38-40 | a cleaned line is a suffix of the stripped line, what was cut off consists of peel characters, it does not start with a space, and it does not end with whitespace |
| Facts.CleanMarked | main.py:38-40 | an already-stripped line (first and last character not whitespace) that starts with exactly one copy of a peel character, followed by a character that no later peel character removes, loses exactly its first character |
| Facts.CleanNumberKeepsMarker | main.py:38-40 | a line "1" + c + rest, where c is peeled before '1' (a bullet character, '-' or '0'), cleans to c + rest: "1-..." keeps its dash and a line numbered "10. ..." keeps "0. " |
| Facts.CleanDash | main.py:38-40 | a dashed line "-..." loses its dash when what follows does not start with a peel character |
| Facts.CleanNotIdempotent | main.py:38-40 | cleaning is not idempotent: for every line "1-" + rest (rest not starting with a peel character, not ending with whitespace) cleaning twice differs from cleaning once; once gives "-" + rest, twice gives rest |
| Facts.CleanLine | main.py:38-40 | the strip-then-`lstrip`-each-character loop computes exactly the cleaned line |
| Facts.FirstFacts | main.py:37-45 | the loop over the lines, with its stop after five kept facts and the final `facts[:5]`, returns exactly the first five plausible cleaned lines, in order |
| Facts.ExtractFacts | main.py:35-45 | the extraction returns exactly the facts of the reply text: at most five, each of a length strictly between 10 and 120 |
| Facts.KeptFromLine | main.py:37-42 | each kept string is the cleaned form of its line, a suffix of that stripped line, with no leading space and no trailing whitespace |
| Facts.FactFromLine | main.py:35-45 | each returned fact is the cleaned form of a line of the reply (taken in increasing line order), a suffix of that stripped line, with no leading space and no trailing whitespace |
| Facts.FactsComplete | main.py:35-45 | when fewer than five facts are returned, every line of the reply whose cleaned form passes the filter is among them |
| Facts.KeptInTurn | main.py:37-42 | a line whose cleaned form passes the filter is kept right after the strings kept from the lines before it |
| Facts.FactReturned | main.py:35-45 | a line whose cleaned form passes the filter and that has fewer than five passing lines before it is returned, right after the facts from those earlier lines; so when five facts come back they are the first five passing lines |
| Endpoint.GetFacts | main.py:24-47 | an unknown category gives "Invalid category" and sends no request; a known one sends its own prompt; a raised exception gives "Failed to fetch facts: " and its message; a status other than 200 gives "AI failed to generate facts"; a list of facts comes back exactly when the status is 200, and it is the extractor's result for the reply text |

## Left out

- The `/` and `/generate_video` routes (image download, speech synthesis,
  video composition, temporary files) and the FastAPI wiring are not part of
  this model.
- The network request: the fact service is a function parameter, so the
  timeout, connection errors and the text decoding of the response are
  represented only by what the service returns (`Http` or `Raised`).
- Endpoint.GetFacts: records the prompt it sends, not the URL; building the
  URL with `urllib.parse.quote` is not modelled.
- Endpoint.GetFacts: only exceptions raised by the service call reach the
  `except` branch; the string operations of the extractor cannot raise on
  text, and `str(e)` is modelled as the message carried by `Raised`.
- Facts.FirstFacts: the `break` once five facts are kept is modelled as a
  loop condition. The loop body has no side effects, so stopping before or
  after the next iteration's test gives the same facts, and `StopEarly`
  proves the early stop agrees with filtering all lines.
- Strings are sequences of Unicode code points; Python's lone surrogates
  and the whitespace of Unicode versions other than the one with the 29
  `isspace` code points listed in `Text.Whitespace` are not modelled.
