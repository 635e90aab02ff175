# steam-vanity-checker, modelled in Dafny

The checker reads a wordlist from `words.txt` and turns it into a clean list:
each line trimmed, duplicates dropped, and the rest sorted. It then requests
`https://steamcommunity.com/id/<word>` for each word, one at a time, through
an HTTP client that sleeps and re-issues a request rejected with status 429.
A word is available when the profile page says "The specified profile could
not be found.". The available words are written to `available_words.txt`,
one per line.

The model replaces the file system and the network with inputs:

- The result of reading `words.txt` is an `Option<Str>`. `None` means the read failed.
- What axios does on each attempt of one request is given as a script, one entry per attempt.
  An entry is either the response axios resolved with, or the error it rejected with.
  That error may or may not carry a response.

Strings are JavaScript strings: sequences of UTF-16 code units (`JsString.Str`).
This makes `trim()`, `split('\n')`, `join('\n')`, `includes(..)` and the default
`sort()` comparator exact.

Modules, one per component of `index.js`:

- `JsString` holds the built-in string operations the code relies on.
- `CodeUnitOrder` is the order of the default `sort()` comparator.
- `Wordlist` is `getCleanWordlist`, a pure pipeline written as functions with lemmas.
- `HttpClient` is `HTTPClient.request`, a recursive function over the attempt script.
- `Checker` holds the `checkUsernames` loop as a method proved against the
  specification function `Outcome`, the top-level run, and the colour wrappers.
- `Wrappers` holds the `Option` type.

Where the code behaves in ways a reader might not expect, the model follows the code:

- Blank lines are not filtered out. A blank line trims to the empty word `""`, and that word is probed.
  So an empty `words.txt` gives the wordlist `[""]` (`Wordlist.EmptyFileGivesBlankWord`), and the run probes the bare base URL.
  It does not skip the probe phase.
- The wordlist is sorted by UTF-16 code unit, not by code point.
  The two orders differ for characters beyond U+FFFF against U+E000–U+FFFF.
- Only a *rejected* 429 is retried. If axios resolves with a status of 400 or more, `request` returns nothing, even for 429.
- An error without a response makes `request` throw (`error.response.status`).
  The exception ends the whole run, and nothing is saved.

## Model

| member | source | states |
|---|---|---|
| JsString.Split | index.js:67 | `split('\n')` yields at least one piece, and no piece contains a line feed |
| JsString.SplitPieceCount | index.js:67 | `split('\n')` yields one more piece than there are line feeds in the text |
| JsString.Join | index.js:99 | `join('\n')` starts with the first element, followed by a line feed when more elements follow; `SplitJoin` shows that splitting undoes it |
| JsString.JoinSplit | index.js:67 | joining the pieces of a split with line feeds gives the original text back |
| JsString.SplitJoin | index.js:99 | splitting the newline-joined list gives the list back, for a non-empty list whose elements hold no line feed |
| JsString.Trim | index.js:67 | `trim()` returns the input with white space cut from both ends; the cut parts are all white space and the result has white space at neither end |
| JsString.TrimFixedPoint | index.js:67 | `trim()` leaves a string unchanged exactly when neither end is white space |
| JsString.TrimIdempotent | index.js:67 | trimming twice is the same as trimming once |
| JsString.Includes | index.js:90 | `includes` always finds the empty string, and a string it finds is no longer than the text searched |
| JsString.IncludesIffOccurs | index.js:90 | `includes` holds exactly when the needle occurs at some offset of the text |
| JsString.IncludesWitness | index.js:90 | when `includes` holds, the marker occurs at some offset of the body |
| JsString.OccursIncludes | index.js:90 | when the marker occurs at any offset of the body, `includes` holds |
| CodeUnitOrder.BelowIffFirstDifference | index.js:69 | the sort order: a proper prefix comes first, otherwise the first differing code unit decides |
| CodeUnitOrder.BelowIrreflexive | index.js:69 | no string sorts before itself |
| CodeUnitOrder.BelowAsymmetric | index.js:69 | two strings never sort before each other |
| CodeUnitOrder.BelowTransitive | index.js:69 | the sort order is transitive |
| CodeUnitOrder.BelowTotal | index.js:69 | any two different strings are ordered one way or the other |
| Wordlist.TrimmedLines | index.js:67 | `split('\n').map(w => w.trim())` gives one more line than the file has line feeds; each line is trimmed and holds no line feed |
| Wordlist.Dedupe | index.js:68 | the `Set` round trip keeps every string of the input exactly once and adds nothing |
| Wordlist.DedupeDistinct | index.js:68 | a list without duplicates passes through the `Set` unchanged |
| Wordlist.Insert | index.js:69 | inserting adds exactly the one element to the multiset of the list |
| Wordlist.InsertSorted | index.js:69 | inserting into a sorted list keeps it sorted |
| Wordlist.Sort | index.js:69 | `sort()` returns a sorted permutation of its input |
| Wordlist.PermutationDistinct | index.js:68-69 | sorting a duplicate-free list leaves it duplicate-free |
| Wordlist.AscendingUnique | index.js:69 | two strictly ascending lists with the same elements are equal, so the result does not depend on the sorting algorithm |
| Wordlist.SortAscending | index.js:69 | sorting an already strictly ascending list changes nothing |
| Wordlist.CleanWordlist | index.js:64-74 | a failed read gives `[]`; otherwise the result is strictly ascending (sorted, no duplicates) and holds exactly the trimmed lines of the file |
| Wordlist.CleanWordlistNonEmpty | index.js:66-69 | a successful read always gives at least one word |
| Wordlist.CleanWordsAreLines | index.js:67 | every cleaned word is trimmed and contains no line feed |
| Wordlist.CleanOfCleanList | index.js:64-74 | loading a file that already holds a clean list, one word per line, gives that list back |
| Wordlist.CleanIdempotent | index.js:64-74 | cleaning is idempotent: the cleaned list, joined with line feeds and cleaned again, is unchanged |
| Wordlist.EmptyFileGivesBlankWord | index.js:66-69 | an empty file gives the one-word list `[""]` |
| HttpClient.Request | index.js:40-61 | every request put on the wire is the original one; a delivered response has status below 400; the call runs past the script exactly when every scripted attempt is a 429 rejection |
| HttpClient.FirstDecisive | index.js:49-56 | the index of the first attempt that is not a 429 rejection; every earlier attempt is one |
| HttpClient.RequestDecidedByFirstDecisive | index.js:40-61 | the result is decided by the first attempt that is not a 429 rejection, after one identical request per attempt up to that one |
| HttpClient.RetriedUntilDelivered | index.js:49-56 | after k rejections with 429, a response below 400 is returned, after k + 1 identical requests |
| HttpClient.FirstErrorGivesNothing | index.js:57-59 | a first rejection with a status other than 429 ends the call after one request, with nothing |
| Checker.ProbeRequest | index.js:85-86 | the request for a word is a GET without data or extra headers, to the base URL followed by the word unchanged |
| Checker.Probe | index.js:86 | a response handed to the loop has status below 400; the request retries past the script exactly when every scripted attempt is a 429 rejection |
| Checker.MarksAvailable | index.js:90 | a word is available exactly when there is a response and the marker occurs in its body |
| Checker.StatusLines | index.js:87-95 | no more status lines than words, and every line is about a word of the wordlist |
| Checker.Filter | index.js:84-96 | the available list holds only words of the wordlist and is no longer than it |
| Checker.Where | index.js:84-96 | the selected indices come in increasing order and are exactly the positions whose flag holds |
| Checker.FilterPicksMarked | index.js:84-96 | the available list is exactly the words whose response body includes the marker, in wordlist order (a subsequence) |
| Checker.StatusLinesPickPresent | index.js:87-95 | a status line is printed for exactly the words that got a response, in order, with the marker verdict; a word without a response is skipped |
| Checker.FilterAscending | index.js:84-96 | the available words of an ascending wordlist are ascending |
| Checker.FirstFatal | index.js:86 | the run stops at the first word whose request throws or never stops retrying; every earlier word got an answer |
| Checker.Outcome | index.js:76-107 | the available words come from the wordlist; a save happens only with at least one available word, and its text is the newline-joined list |
| Checker.OutcomeStopsAtFirstFatal | index.js:84-106 | the run ends `Aborted` at the first word whose request throws and `Hung` at the first that never stops retrying, after answers for every earlier word; when no request is fatal, the list is saved exactly when it is non-empty |
| Checker.OutcomeStopsAt | index.js:84-106 | when the first fatal request is at word i, the outcome is the loop's two lists after i words, with the ending that word's request causes |
| Checker.StepLines | index.js:87-95 | one more word whose request returned: a status line is added when there was a response, and the word joins the available list when the body includes the marker |
| Checker.CheckUsernames | index.js:76-107 | the loop computes `Outcome`: the status lines and available list of the words before the first fatal request, and a save of the newline-joined list only when it is non-empty and no request was fatal |
| Checker.RunChecker | index.js:117-127 | an unreadable file starts no probing; a readable one, even empty, probes its cleaned wordlist |
| Checker.SavedTextListsAvailable | index.js:98-101 | the saved text splits back into the available list; that list is non-empty and keeps the wordlist's ascending order; nothing is saved only when it is empty |
| Checker.SavedFileListsAvailable | index.js:98-101 | for a wordlist loaded from a file: the available list keeps its ascending order, the saved text splits back into that non-empty list, and nothing is saved only when the list is empty |
| Checker.GreenText | index.js:109-111 | the text sits unchanged between the five-unit escape code ESC[32m, which selects green (SGR 32), and the four-unit reset ESC[0m |
| Checker.RedText | index.js:113-115 | the text sits unchanged between the five-unit escape code ESC[31m, which selects red (SGR 31), and the four-unit reset ESC[0m |
| Checker.StatusText | index.js:91-94 | code unit 12 of a status line is the colour digit, `2` (green) for an available word and `1` (red) otherwise; the line ends with `!` |
| Checker.ColourShowsVerdict | index.js:109-115 | green (`greenText`) and red (`redText`) status lines never coincide, so the colour tells the verdict |

## Left out

- Reading `words.txt` and writing `available_words.txt` are file I/O. The read result is an input.
  The save is the `Saved` ending, which carries the text that would be written.
  A failed write only logs an error, so it is not modelled.
- axios is outside the model. Which statuses it resolves with and which it rejects with (its `validateStatus`) is part of the attempt script.
  Header merging is also outside the model.
  A body that axios parsed from JSON is not modelled: `includes` throws on an object, a number or `null`, and on an array it looks for an element equal to the marker. The model takes every body to be a string.
- The 10-second `setTimeout` before a retry is wall-clock time and is not modelled. Only the re-issue of the request is kept.
- HttpClient.Request: the source retries 429 rejections with no bound. The model follows a finite script.
  When the script runs out, the call reports `Exhausted`, and the run ends `Hung` at that word.
- Console output is not modelled: the banner, the word counts, the rate-limit notice, the "Bad request" log and the save notice.
  The per-word status lines are kept, and so are their green and red wrappers.
- The `User-Agent` and the other fixed header values are configuration only. They do not change the control flow.
- `checkUsernames` reads `words.txt` a second time. The model passes it the wordlist the top level loaded, as if the file had not changed.
- JsString.Units: it converts only literals whose characters lie in the Basic Multilingual Plane. Every literal of the checker does.
- The process-level handling of the unhandled rejection is not modelled. The model records where the run aborted.
