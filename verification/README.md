# Journal entries and summarization boundary, modelled in Dafny

This project models the core of a small personal journaling web application
written in Python with Flask. Two kinds of logic are modelled.

The first is the list surgery that the request handlers in `app.py` perform
on the stored entry list between loading and saving it:

- single and bulk delete;
- edit of the first entry carrying an id;
- create with `id = len(entries) + 1`;
- the homepage's "newest ten";
- the past-entries page's preset and start/end date filter.

Each handler becomes a pure function from the loaded list (and the request
parameters) to the list that is saved or shown.

The second is the summarization boundary in `ai_service.py`:

- the configuration check for the three Azure OpenAI environment variables;
- the two prompts;
- the line-oriented parser for the sentiment/insights reply;
- the mapping of every provider outcome, failures included, to a
  fixed-shape result.

The language-model call is a function parameter, from the request sent to
the outcome observed (`Ok(text)`, connection error, rate limit, API error
with a message, or any other exception). Each result records whether a
request was sent at all.

Modules:

- `Wrappers` (`wrappers.dfy`): `Option`.
- `Seqs` (`seqs.dfy`): order-preserving `Filter`, which is Python's list
  comprehension `[x for x in s if p(x)]`, and the subsequence relation.
- `Text` (`text.dfy`): the Python `str` operations the code relies on.
  These are `strip()` with Python's whitespace set, ASCII `lower()`,
  `startswith`, `replace(pat, "")`, `split('\n')`, `join`, and the
  `int()` / `str()` conversions of ids.
- `Entries` (`entries.dfy`): the entry record and delete, bulk delete,
  edit and create.
- `Listing` (`listing.dfy`): the stable newest-first sort, the homepage
  list and the past-entries filter.
- `AiService` (`ai_service.py`'s logic, in `ai_service.dfy`): the
  configuration check, prompts and requests, `get_summary`, the reply
  parser and `get_insights`.

Timestamps are whole seconds since an arbitrary epoch. `(now - ts).days` is
floor division by 86400, which is what Dafny's `/` computes for a positive
divisor, negative ages of future-dated entries included.
`datetime.fromisoformat` on the `start` and `end` query parameters is an
abstract `parse: string -> Option<int>`. `None` stands for a string the
source's `except` swallows.

Behaviour worth knowing, each proved about the model:

- **Bulk delete.** One selected string that `int()` rejects empties the
  whole id set, so nothing is deleted
  (`Entries.StraySelectionDeletesNothing`).
- **Presets.** `week`, `month` and `year` return before the explicit bounds
  are looked at, so under a preset the bounds make no difference
  (`Listing.PresetIgnoresBounds`).
- **New ids.** Create assigns `len(entries) + 1`. After a delete, a new
  entry can therefore share an id with an old one
  (`Entries.CreateAfterDeleteDuplicates`).
- **Excerpt length.** The API-error excerpt is at most 100 characters in
  the summary but at most 50 in the insights.
- **Placeholder.** The placeholder insight is not proof that the reply had
  no `- ` line: a reply whose only insight line reads
  `- No specific insights extracted.` gives the same list
  (`AiService.PlaceholderLookalike`).

## Model

| member | source | states |
|---|---|---|
| Entries.Delete | app.py:66 | Exactly the entries whose id differs from the target are kept, each with its original multiplicity, in their original order. |
| Entries.DeleteAbsent | app.py:66 | Deleting an id no entry carries returns the list unchanged. |
| Entries.DeleteIdempotent | app.py:66 | Deleting the same id twice gives the same list as deleting it once. |
| Entries.DeleteFromDense | app.py:66 | In a store whose ids are 1..n in order, deleting id k cuts out exactly position k-1. |
| Entries.ParseAll | app.py:77-80 | `set(int(x) for x in selected)` succeeds exactly when every selected string parses, and then holds exactly the parsed values. |
| Entries.SelectedIds | app.py:77-80 | The id set is the parsed ids when all strings parse, and empty as soon as one string fails. |
| Entries.DeleteIds | app.py:82 | Exactly the entries whose id is not in the set stay, each with its original multiplicity, in their original order. |
| Entries.DeleteBulk | app.py:76-82 | With every string parseable, an entry stays exactly when no selected string parses to its id, and each survivor keeps its multiplicity. The result is always a subsequence of the input, so order is kept. With one malformed string, the list is unchanged. |
| Entries.DeleteIdsNone | app.py:80-82 | An empty id set deletes nothing. |
| Entries.DeleteBulkIdempotent | app.py:82 | Bulk-deleting the same selection twice equals doing it once. |
| Entries.DeleteBulkOfOne | app.py:78-82 | For an id of at most 4300 digits, bulk delete of the single selection `str(id)` equals the single delete of `id`, because `int(str(id)) == id`. A longer rendering fails to parse and deletes nothing. |
| Entries.DeleteIdsOne | app.py:82 | Removing the id set `{id}` is the single delete of `id`. |
| Entries.StraySelectionDeletesNothing | app.py:77-80 | The selection `["2", "4", "x"]` deletes nothing from any list. |
| Entries.FindFirst | app.py:97 | Returns the position of the first entry carrying the id, or `None` exactly when no entry carries it. |
| Entries.Edit | app.py:97-105 | Length is unchanged. An absent id leaves the list untouched. Otherwise only the first match changes, to the stripped title and content, keeping its id and creation time. |
| Entries.EditIdempotent | app.py:97-105 | Submitting the same edit twice gives the same list as submitting it once. |
| Entries.EditKeepsIds | app.py:103-104 | Editing changes no id, so a store with distinct ids keeps them distinct. |
| Entries.Create | app.py:166-177 | Both inputs blank after stripping leaves the list unchanged. Otherwise exactly one entry is appended, with id `len + 1`, the stripped fields and the current time, and the old entries are kept as a prefix. |
| Entries.CreateKeepsDenseIds | app.py:171 | While only creations happen, ids stay 1..n and hence distinct. |
| Entries.CreateRepeatsLastId | app.py:171 | When the last entry already carries id `len + 1`, creating one more gives two entries with that id. |
| Entries.CreateAfterDeleteDuplicates | app.py:171 | Deleting any but the last entry of a dense store, then creating one, yields two entries with the same id. |
| Seqs.FilterSpec | app.py:82 | The list comprehension keeps every occurrence of an accepted element, drops every rejected one, and is a subsequence of its input. |
| Listing.Insert | app.py:44 | One insertion step adds exactly `x` to the multiset of entries. |
| Listing.InsertSorted | app.py:44 | Inserting into a newest-first sequence keeps it newest-first. |
| Listing.InsertStable | app.py:44 | An inserted entry goes ahead of every entry of the same creation time. |
| Listing.SortDesc | app.py:44 | `sorted(..., reverse=True)` is a permutation of its input, newest first. |
| Listing.SortDescStable | app.py:44 | Entries created at the same instant keep their stored order, as Python's stable sort keeps them. |
| Listing.Recent | app.py:43-46 | The homepage shows min(10, n) entries, newest first, drawn from the store. Every stored entry left off is no newer than every entry shown. |
| Listing.AgeInDays | app.py:128 | `(now - ts).days` is the number of whole days elapsed, rounded down. |
| Listing.AgeBelow | app.py:128-132 | A floor-day age below `d` days is the same as fewer than `d * 86400` seconds elapsed. |
| Listing.InRange | app.py:123-147 | Under `week`/`month`/`year`, an entry is in range exactly when fewer than 7/31/365 days of seconds have elapsed since it. Under any other preset, it is in range exactly when it lies at or after a present, parseable start and at or before a present, parseable end. |
| Listing.PresetWindow | app.py:127-132 | Exactly `week`, `month` and `year` are presets. |
| Listing.Past | app.py:149-150 | The past-entries list is newest first and holds each in-range stored entry with its multiplicity, and nothing else. |
| Listing.PastPreset | app.py:126-132 | Under `week`/`month`/`year` an entry is listed exactly when its floor-day age is below 7/31/365. |
| Listing.PresetIgnoresBounds | app.py:126-132 | Under a named preset the start and end parameters make no difference to the list. |
| Listing.PastBounds | app.py:133-147 | Under any other preset an entry is excluded exactly when a present, parseable start lies strictly after it or a present, parseable end strictly before it. |
| Listing.FutureEntryInEveryPreset | app.py:127-132 | An entry dated after `now` passes every preset window, because its age in days is negative. |
| AiService.MissingVars | ai_service.py:18-19 | The missing list holds exactly the required variables that are absent or empty, in their declared order. |
| AiService.NothingMissing | ai_service.py:19-20 | The missing list is empty exactly when every required variable is set. |
| AiService.MessageNamesAll | ai_service.py:21 | The error message names every variable in the missing list. |
| AiService.CheckConfig | ai_service.py:16-22 | Configured iff every required variable is set, iff there is no error. Otherwise the error starts with the fixed prefix and names every missing variable. |
| AiService.UnframeFrame | ai_service.py:57-63 | A prompt is header, entries text and footer, and the entries text is recovered from it unchanged. |
| AiService.FrameInjective | ai_service.py:57-63 | Different entries texts give different prompts. |
| AiService.PromptsCarryEntries | ai_service.py:109-121 | Both the summary and the insights prompts carry the entries text verbatim between their fixed header and footer. |
| AiService.ModelName | ai_service.py:66 | The model is the variable's value whenever the variable is present, even empty, and `gpt-4o-mini` only when it is absent. |
| AiService.ConfiguredModel | ai_service.py:66 | Once the check reports configured, the model variable is present and non-empty, so requests never use the `gpt-4o-mini` default. |
| AiService.SummaryRequest | ai_service.py:57-73 | The summary call uses the configured model, the summary system message, temperature 0.7 and 200 tokens, and its prompt gives back the entries text between the fixed header and footer. |
| AiService.InsightsRequest | ai_service.py:109-131 | The insights call uses the configured model, the insights system message, temperature 0.5 and 300 tokens, and its prompt gives back the entries text between the fixed header and footer. |
| AiService.Take | ai_service.py:82 | `s[:n]` is a prefix of `s` whose length is exactly `min(len(s), n)`. |
| AiService.GetSummary | ai_service.py:49-85 | Unconfigured: the fixed notice and no request. Configured: one summary request. The result is the stripped reply, or the "unavailable" notice on connection or rate-limit errors, or the generic notice. An API error gives the error prefix followed by the first `min(len(m), 100)` characters of the message `m`, and all of `m` when it is at most 100 long. |
| AiService.SummaryFailuresWarn | ai_service.py:77-85 | Every summary that did not come from the provider's text starts with the warning sign. |
| AiService.SentimentOf | ai_service.py:142 | The sentiment is no longer than its line and contains no ASCII capital. |
| AiService.SentimentOfWord | ai_service.py:142 | `Sentiment: Word` yields `Word` lower-cased when the word has no surrounding whitespace and no inner marker. |
| AiService.InsightOf | ai_service.py:144 | A cleaned insight is no longer than its line and neither starts nor ends with whitespace. |
| AiService.RemoveAllSubsequence | ai_service.py:142-144 | What `replace(marker, "")` leaves of a line is a subsequence of the line. |
| AiService.LastSentiment | ai_service.py:140-142 | The sentiment is `unknown` or the sentiment of some line that starts with `Sentiment:`. |
| AiService.InsightLines | ai_service.py:140-144 | At most one insight is collected per line. |
| AiService.InsightLinesEmpty | ai_service.py:140-144 | No insight is collected exactly when no line is an insight line. |
| AiService.ParseStep | ai_service.py:140-144 | One more line changes the sentiment only when it is a sentiment line, and appends exactly its cleaned insight when it is an insight line. |
| AiService.LastSentimentSpec | ai_service.py:136-142 | Sentiment is `unknown` when no line starts with `Sentiment:`, and otherwise comes from the last line that does. |
| AiService.InsightLinesSpec | ai_service.py:139-144 | The insights are the `- ` lines that are not sentiment lines, in order, each cleaned. |
| AiService.InsightsOrPlaceholder | ai_service.py:148 | The reported insights list is never empty. |
| AiService.InsightsByCase | ai_service.py:146-149 | No `- ` line gives exactly the placeholder. Some `- ` line gives exactly the collected insights, which are then non-empty. |
| AiService.MarkersExclusive | ai_service.py:141-143 | A line starting with `- ` never starts with `Sentiment:`, so the `elif` never hides an insight line. |
| AiService.InsightDropsInnerMarkers | ai_service.py:144 | Every `- ` is removed, not only the leading one: `- a - b` gives `a b`. |
| AiService.PlaceholderLookalike | ai_service.py:148 | A reply whose one insight line is `- No specific insights extracted.` reports the same list as a reply with no insight line. |
| AiService.ParseInsights | ai_service.py:136-149 | The parsing loop returns the last sentiment line's sentiment and the collected insights, or the placeholder when there are none. |
| AiService.GetInsights | ai_service.py:98-168 | Never fails, and always reports at least one insight. Unconfigured: fixed result and no request. Configured: one insights request, with the stripped reply parsed on success. Every failure gives `unknown` and exactly one fixed insight. For an API error that insight is the prefix followed by the first `min(len(m), 50)` characters of the message `m`. |
| Text.Strip | app.py:166-167 | `strip()` is never longer than its input, and is empty exactly when its input is all whitespace. |
| Text.StripEnds | app.py:166-167 | A stripped string neither starts nor ends with whitespace. |
| Text.StripIsSlice | app.py:166-167 | `strip()` removes only surrounding whitespace: its result is a slice of the input with only whitespace around it. |
| Text.StripIdempotent | app.py:101-102 | Stripping twice equals stripping once. |
| Text.Lower | ai_service.py:142 | `lower()` keeps the length, maps each ASCII capital to its lower-case letter and changes no other character. |
| Text.RemoveAll | ai_service.py:144 | `replace(pat, "")` never lengthens the string, and shortens it exactly when the pattern occurs. |
| Text.RemoveAllAbsent | ai_service.py:142 | Removing a pattern that does not occur leaves the string unchanged. |
| Text.RemoveAllSkip | ai_service.py:144 | A prefix in which no occurrence of the pattern starts is kept, and removal continues after it. |
| Text.RemoveAllSplit | ai_service.py:144 | When no occurrence starts before an occurrence of the pattern, that occurrence is removed and the text before it is kept. |
| Text.Split | ai_service.py:139 | `split('\n')` yields at least one part, no part contains a newline, and joining the parts with newlines gives back the text. |
| Text.SplitJoin | ai_service.py:139 | Splitting the newline-join of a non-empty list of newline-free parts gives back that list. |
| Text.Join | ai_service.py:21 | Joining no parts gives the empty string, and a non-empty join starts with its first part. |
| Text.JoinContains | ai_service.py:21 | Every part occurs in the join. |
| Text.ParseInt | app.py:78 | `int()` rejects a blank string and any string holding one of the separators U+001C to U+001F. |
| Text.ParseShowInt | app.py:78 | `int(str(n)) == n` for every integer `n` of at most 4300 digits. A longer rendering is rejected by `int()`. |
| Text.ParseIntAccepts | app.py:78 | `int(x)` succeeds exactly when `x` holds none of the separators U+001C to U+001F and, once stripped, is 1 to 4300 ASCII digits with at most one leading `+` or `-`. |
| Text.ParseIntValue | app.py:78 | On such a string `int(x)` is the digits' decimal value, negated after a `-`. |
| Text.ParseIntPlain | app.py:78 | On a string with no separator and no surrounding whitespace, `int()` reads the sign and digits directly. |
| Text.ParseIntLetter | app.py:78 | `int()` rejects a single lower-case letter. |

## Left out

- HTTP plumbing: Flask routing, redirects, template rendering, the session
  flags and the `next` redirect check of bulk delete. This is web-framework
  glue.
- Login and the route guards. These are authentication glue.
- JSON storage: reading and writing the entries file. The loaded list is the
  model's state, and each operation returns the list that is saved.
- Date parsing and display: `fromisoformat` on stored timestamps,
  `strftime` and `display_time`. Timestamps are integers. A stored
  timestamp that fails to parse, which crashes the past-entries request,
  is not modelled.
- Listing.SortDesc: sorts by whole seconds, whereas the source sorts by
  the ISO string that `isoformat()` wrote. Within one second the orders
  differ. The model keeps entries of the same second in stored order.
  The source orders them by the characters after the seconds. Those
  characters are the fraction, or just `Z` when `isoformat()` omitted a
  zero microsecond (app.py:174). Since `Z` sorts above `.`, such an entry
  comes first among its second.
- Listing.InRange: reads one `now` for the whole request, whereas the
  source reads the clock again for each entry. Sub-second precision is
  also dropped.
- Text.Lower: ASCII letters only. Full Unicode case mapping is not
  modelled.
- Text.Strip: uses the fixed whitespace set of Python's `str.isspace`.
  This is not derived from the Unicode database.
- Text.ParseInt: accepts ASCII digits with an optional sign and
  surrounding whitespace. Underscores between digits and non-ASCII digits,
  which Python's `int()` also accepts, are rejected. The digit limit is
  fixed at 4300, CPython's default from 3.11 on. Earlier releases without
  the limit accept longer strings, and `sys.set_int_max_str_digits` can
  change it.
- Text.ShowInt: renders an integer of any length, whereas `str()` raises
  beyond 4300 digits. Only lemmas use it. They state the round trip for
  ids of at most 4300 digits.
- Entries.Entry: its id is an integer. Entries stored without an `id` key,
  which `e.get('id')` reads as `None`, are not modelled.
- The Azure OpenAI client and the network round-trip. Client construction,
  the API version and logging are left out. The call is a function
  parameter returning one of five outcomes. An empty reply text is an
  `Ok("")` outcome. A missing reply text or an empty `choices` list raises
  inside the `try`, so it is the `Other` outcome.
- `get_summary`'s `max_length` parameter, which its body never reads.
- The summarize page that joins the selected entries into `entries_text`.
  It is not in `app.py`, so that builder is not part of this model. Both
  service functions take `entries_text` as given.
- `models.py`: schema declarations and password-hashing wrappers with no
  logic of their own.
- Concurrency: two simultaneous creates reading the same list length. The
  model handles one request at a time.
