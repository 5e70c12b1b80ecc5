# DataEX row enrichment, modelled in Dafny

DataEX loads a sheet, lets the user pick a column and type a query with a
placeholder such as `contact details of {company_name}`, and then researches
the first non-null values of that column: for each value it fills the
placeholder in, runs a web search and a structured scrape, asks a language
model to extract the requested entities from the joined responses, and writes
the extracted fields, a `Process` mark and a `Status` text back into the row.

This project models the core of that pipeline and proves properties of it:

- `py_str.dfy` (module `PyStr`): the Python string builtins the core relies
  on: `str.strip()`, `str.replace(old, new)` and `str(n)` for a status code.
- `query_template.dfy` (module `QueryTemplate`): the placeholder check on
  submit (`re.search(r'\{.*\}', q)`), `clean_query`
  (`re.sub(r"\{.*?\}", "", q).strip()`), the placeholder names
  (`re.findall(r'\{([^}]+)\}', q)`) and the per-row substitution loop. Each
  regular expression is written out as an explicit scanner and then
  characterised by lemmas.
- `row_unit.dfy` (module `RowUnit`): `extract_information`'s schema loop and
  `search_contact_details`, the unit of work run for one row, with the three
  external services as parameters.
- `table_spec.dfy` (module `TableSpec`): the sheet as a value and the
  handler's steps on it: `dropna`/`head`/`tolist` row selection, the reset of
  `Process` and `Status`, and the merge of each outcome through
  `data.at[row_index, key] = value`.
- `enrichment.dfy` (module `Enrichment`): the Submit handler over a `Table`
  object whose fields are updated in place, proved against the value-level
  definitions of `TableSpec`.

The worker pool is modelled by what it leaves observable: every task's outcome
is a function of its formatted query, and the only free choice is the order in
which the futures complete (`order`), which the merge loop follows. The model
proves that this order changes no cell and no column name, only the order in
which newly created columns are appended.

Behaviour of the code worth knowing, as the model states it:

- A failed row does not get its error message in `Status`. The worker returns
  the one-key dictionary `{"error": message}`, and unpacking it into two
  names raises `ValueError`. So `Process` is `Failed` and `Status` is always
  `not enough values to unpack (expected 2, got 1)` (`ErrorMessageDropped`).
- Results are written to the row whose label is the task's position in the
  selected list, not to the row the value came from. A null above a selected
  value shifts its result up (`SourceRowOfTask`, `NullShiftsEnrichment`).
- Placeholder names are not a set: a name used twice is listed twice, in
  text order (`DuplicatesKept`). The first `replace` of that name already
  fills both of its spans, so the second one finds nothing left to replace
  unless the row value itself holds a '{' (`FormattedTwice`).
- The search and the scrape are not independent: the scrape runs only after
  the search has returned (`SearchContactDetails`).
- `str()` of the scrape's response is its status line `<Response [code]>`,
  so the scraped body never reaches the extraction (`ScrapeBodyIgnored`).
- A planner answer whose `question_status` is not true only produces a
  warning; the run goes on (`Submit` returns `Completed(true)`).

## Model

| member | source | states |
|---|---|---|
| PyStr.ReplaceAll | app.py:198 | `str.replace(old, new)` for a non-empty `old`: occurrences replaced left to right, the scan resuming behind each; characterised by `ReplaceAllJoin` (every occurrence), `ReplaceAllUpTo`, `ReplaceAllFront`, `ReplaceAllPrefix`, `ReplaceAllAbsent`, `ReplaceAllSelf` |
| PyStr.Strip | app.py:88 | the result starts and ends with non-whitespace and is the slice left after removing a whitespace-only prefix and suffix |
| PyStr.StripIdempotent | app.py:88 | stripping a stripped string changes nothing |
| PyStr.ReplaceAllAbsent | app.py:198 | replacing a pattern that occurs nowhere leaves the string unchanged |
| PyStr.ReplaceAllSelf | app.py:198 | replacing a pattern by itself leaves the string unchanged |
| PyStr.ReplaceAllPrefix | app.py:198 | a prefix without the pattern's first character is copied and the replacement continues behind it |
| PyStr.ReplaceAllFront | app.py:198 | an occurrence at the front becomes the replacement and the replacement continues behind it |
| PyStr.ReplaceAllUpTo | app.py:198 | a prefix in which no occurrence starts is copied unchanged, whatever it holds (a stray '{' included), and the replacement continues behind it |
| PyStr.ReplaceAllJoin | app.py:198 | every occurrence is replaced: the pieces of a split (no occurrence starts inside a piece, the separator behind it counted, and none in the last) joined by the pattern come out joined by the replacement (`s.replace(p, r) == r.join(s.split(p))`) |
| PyStr.ReplaceAllStrayBrace | app.py:198 | `"{} {c}".replace("{c}", "A")` is `"{} A"`: a '{' that starts no occurrence does not stop the scan |
| PyStr.NatToDecimal | utils.py:136 | `str(n)` is a non-empty run of decimal digits with a leading zero only for 0 |
| PyStr.DecimalRoundTrip | utils.py:136 | reading the digits of `str(n)` back gives `n` |
| QueryTemplate.SearchBraces | app.py:165 | the scanner for `re.search(r'\{.*\}')`: `open` records a '{' on the current line, a newline forgets it; characterised by `SearchBracesMeaning` |
| QueryTemplate.HasPlaceholder | app.py:165 | the submit check, the scanner started closed; characterised by `HasPlaceholderIff` |
| QueryTemplate.SearchBracesMeaning | app.py:165 | the one-pass scanner for `\{.*\}` answers true exactly when a '{' is followed on the same line by a '}' (or, starting open, a '}' comes before the first newline) |
| QueryTemplate.HasPlaceholderIff | app.py:165 | the submit check accepts a query iff some line holds a '{' followed later on that line by a '}' |
| QueryTemplate.HasPlaceholderExamples | app.py:165-166 | `{}` is accepted; `}{` and braces on different lines are refused |
| QueryTemplate.RemoveSpans | app.py:86 | `re.sub(r"\{.*?\}", "", s)`: at a '{' whose line holds a later '}', everything up to the first such '}' is dropped; other characters are kept; characterised by `ScanAfterRemoval`, `RemoveSpansFixesCleanText`, `RemoveSpansSpan` |
| QueryTemplate.CleanQuery | app.py:84-88 | `clean_query`: `RemoveSpans` then `Strip`; characterised by `CleanQueryHasNoPlaceholder`, `CleanQueryIdempotent` |
| QueryTemplate.ScanAfterRemoval | app.py:86 | after the lazy span removal no '{' is followed by a '}' on its line |
| QueryTemplate.CleanQueryHasNoPlaceholder | app.py:84-88 | the cleaned query has no surrounding whitespace and would be refused by the submit check |
| QueryTemplate.RemoveSpansFixesCleanText | app.py:86 | the removal leaves text that the submit check refuses unchanged |
| QueryTemplate.CleanQueryIdempotent | app.py:84-88 | cleaning a cleaned query changes nothing |
| QueryTemplate.CleanQueryWithoutBraces | app.py:84-88 | on a query without '{', cleaning is whitespace stripping alone |
| QueryTemplate.RemoveSpansPlain | app.py:86 | text without '{' passes through the removal unchanged, in front of whatever follows |
| QueryTemplate.RemoveSpansSpan | app.py:86 | a one-line `{name}` span is removed whole |
| QueryTemplate.RemoveTwoSpans | app.py:86 | in `a{n1}b{n2}` both spans go and `a`, `b` stay |
| QueryTemplate.CleanQueryOneSpan | app.py:84-88 | the prompt's shape `text {name}` cleans to `text` stripped |
| QueryTemplate.CleanQueryTwoSpans | app.py:84-88 | `a{n1}b{n2}` cleans to `a + b` stripped, keeping the inner double space |
| QueryTemplate.NextClose | app.py:195 | the index returned is the first '}' at or after the start, or the end |
| QueryTemplate.Matches | app.py:195 | the spans `re.findall(r'\{([^}]+)\}')` visits, resuming behind each match's '}'; characterised by `MatchesSound` and `MatchesComplete` |
| QueryTemplate.Placeholders | app.py:195 | one name per match, the text between its braces, as many names as matches; characterised by `PlaceholderNames`, `PlaceholdersComplete` |
| QueryTemplate.MatchesSound | app.py:195 | every reported match starts with a '{', ends at the first '}' after it with at least one character between, and the matches are in text order and disjoint |
| QueryTemplate.PlaceholderNames | app.py:195 | each extracted name is non-empty, holds no '}', and sits between the braces of its own match |
| QueryTemplate.MatchesComplete | app.py:195 | the scan misses no match: a position where the pattern matches and that no reported span covers starts a reported span |
| QueryTemplate.PlaceholdersComplete | app.py:195 | every match not inside an earlier one yields a name, the text between its '{' and the first '}' after it |
| QueryTemplate.MatchesEmptyIff | app.py:195 | the scan finds nothing iff no position from the start matches |
| QueryTemplate.PlaceholdersEmptyIff | app.py:195 | no names are extracted iff no position of the query starts a match |
| QueryTemplate.Substitute | app.py:196-198 | each name in list order replaced, through `str.replace`, by the value; `SubstituteOne` ties one step to `ReplaceAll` |
| QueryTemplate.Formatted | app.py:195-198 | the query researched for a row: every extracted name replaced by the row value; characterised by `SinglePlaceholder`, `FormattedTwoNames`, `FormattedTwice`, `EmptyBracesOnly` |
| QueryTemplate.FormatQuery | app.py:195-198 | the substitution loop yields `Formatted(query, value)`: each name replaced in list order by the row value |
| QueryTemplate.EmptyBracesOnly | app.py:195-198 | when every '{' is closed at once, no name is extracted and the query is researched as typed |
| QueryTemplate.EmptyPlaceholderAccepted | app.py:165-198 | `{}` passes the check but extracts no name and stays in the researched query |
| QueryTemplate.MatchAtBrace | app.py:195 | a `{name}` span with a non-empty name without '}' is one match capturing that name, and the scan resumes behind it |
| QueryTemplate.SubstituteOne | app.py:198 | substituting one name is one `replace` of `{name}` |
| QueryTemplate.SinglePlaceholder | app.py:195-198 | for `pre{name}` the names are `[name]` and each row researches `pre` followed by its value |
| QueryTemplate.TwiceReplaced | app.py:198 | one `replace` of `{name}` fills both spans of `pre{name}mid{name}` |
| QueryTemplate.PlaceholdersOfTwo | app.py:195 | `pre{n1}mid{n2}` extracts `[n1, n2]`, in text order, whether or not the names are equal |
| QueryTemplate.FormattedTwoNames | app.py:195-198 | the prompt's shape `a{n1}b{n2}` with two different names: both are extracted, the first `replace` leaves `{n2}` alone, and the row is researched as `a + v + b + v` |
| QueryTemplate.FormattedTwice | app.py:195-198 | a query using one name twice is researched with the value in both places: the first `replace` fills both, and the second finds nothing left when the value holds no '{' |
| QueryTemplate.FormattedExample | app.py:195-198 | `email of {company}` extracts `company` and researches `email of Acme` for `Acme` |
| QueryTemplate.DuplicatesKept | app.py:195 | `{a}{a}` extracts `a` twice |
| RowUnit.DictSet | utils.py:99 | a dict assignment keeps an existing key in place with the new value and appends a new key last, keys staying distinct |
| RowUnit.KeyOrderShape | utils.py:97-99 | assigning keys keeps the existing keys first and in place and adds each new key exactly once |
| RowUnit.KeyOrderFirstSeen | utils.py:97-99 | keys assigned to an empty dict come in the order of their first assignment |
| RowUnit.EntityPrompt | utils.py:98 | the per-entity instruction text, with the entity and the information blob in place |
| RowUnit.SchemaOf | utils.py:95-99 | the schema as a dict: each distinct entity in order of first appearance with its prompt; characterised by `SchemaShape`, built by `BuildSchema` |
| RowUnit.SchemaStep | utils.py:97-99 | one pass of the loop turns the schema of `entities` into the schema of `entities + [e]` |
| RowUnit.BuildSchema | utils.py:95-99 | the loop builds `SchemaOf(information, entities)` |
| RowUnit.SchemaShape | utils.py:95-99 | the schema has one key per distinct entity, in order of first appearance, each mapped to that entity's prompt |
| RowUnit.ResponseStr | utils.py:136 | `str()` of a `requests` response: `<Response [code]>`, never the body |
| RowUnit.SearchContactDetails | utils.py:131-140 | search, then scrape with `US`/`TLD`, then, once both have returned, extraction on their joined blob and its schema; the first call that raises ends the unit with its message in the error dict; on success the blob is the search text, a space and the response's status line and the fields are the extraction's value |
| RowUnit.ScrapeBodyIgnored | utils.py:136 | a scrape that differs only in its body leaves the unit's result unchanged |
| TableSpec.SetColumnNull | app.py:186-187 | `data[c] = None` nulls that column only, appending it when new |
| TableSpec.SetCell | app.py:213 | `data.at[r, c] = v` changes that one cell, creating a null column last when needed |
| TableSpec.ResetMarks | app.py:186-187 | Process and Status are null in every row, other cells unchanged |
| TableSpec.WriteFields | app.py:212-213 | the field loop writes each key's value into row `r` and changes nothing else |
| TableSpec.LastValueOfDict | app.py:212-213 | with distinct keys, the cell of a key holds the value stored with it |
| TableSpec.RowCell | app.py:206-219 | what an outcome leaves in a cell of its row: a field's value, `Success`/`Failed` in Process, the blob or the unpacking error in Status, the old cell elsewhere |
| TableSpec.ApplyOutcome | app.py:204-219 | one pass of the completion loop: success writes fields, `Success` and the blob; an error dict writes `Failed` and the unpacking error; other rows unchanged |
| TableSpec.ErrorMessageDropped | app.py:206 | the message of a failed unit never reaches the table |
| TableSpec.MergeInOrder | app.py:203-219 | merging keeps the table well formed and its height |
| TableSpec.MergeCells | app.py:203-219 | a row whose task completed holds what its outcome writes over the row; every other row is unchanged |
| TableSpec.MergeColumns | app.py:203-219 | the merge appends each new column in the order it is first written |
| TableSpec.WrittenByMember | app.py:212-216 | a column is written by the merge iff some completed outcome writes to it |
| TableSpec.MergeSameColumnNames | app.py:203-219 | two completion orders of the same tasks create the same column names |
| TableSpec.MergeOrderIndependent | app.py:190-219 | completion order changes no cell and no column name |
| TableSpec.SameCells | app.py:213 | two frames agreeing on every cell and column name hold the same columns |
| TableSpec.DropNaFrom | app.py:149 | each kept entry is a non-null cell with its row label |
| TableSpec.DropNaKeeps | app.py:149 | `dropna` keeps exactly the non-null rows |
| TableSpec.DropNaOrdered | app.py:149 | `dropna` keeps the rows in order |
| TableSpec.SelectRows | app.py:181 | the selected values are the first `n` non-null values, fewer only when the column has fewer |
| TableSpec.SourceRowOfTask | app.py:181-213 | task `i` writes to row `i` but its value came from a row at or below `i`, the same row iff no cell up to it is null |
| TableSpec.NullShiftsResults | app.py:149-181 | in `[None, "Acme"]`, the one selected value is "Acme" and it comes from row 1 |
| Enrichment.RowOutcomes | app.py:192-200 | task `i`'s outcome: the row unit on the query filled with the `i`-th selected value |
| Enrichment.Enriched | app.py:181-219 | the table after Submit: the marks reset, then every outcome merged in completion order; characterised by `EnrichedCells` |
| Enrichment.NullShiftsEnrichment | app.py:181-219 | with the column `[None, "Acme"]`, the outcome for "Acme" (from row 1) is written to row 0, and row 1 keeps null Process and Status |
| Enrichment.CompletionOrderFits | app.py:190-204 | every completed task indexes a selected row and a table row |
| Enrichment.EnrichedCells | app.py:181-219 | every cell after Submit: row `i` below the task count holds task `i`'s outcome over the reset row, every other row keeps its cells with null marks |
| Enrichment.EnrichedOrderIndependent | app.py:190-219 | the completion order changes no cell and no column name of the Submit result |
| Enrichment.Table.ResetColumn | app.py:186-187 | the in-place reset equals `SetColumnNull` on the snapshot |
| Enrichment.Table.SetCell | app.py:213 | the in-place write equals `TableSpec.SetCell` on the snapshot |
| Enrichment.Table.MergeOutcome | app.py:204-219 | the in-place merge of one outcome equals `ApplyOutcome` on the snapshot |
| Enrichment.Table.MergeAll | app.py:203-219 | the completion loop equals `MergeInOrder` on the snapshot |
| Enrichment.Table.Submit | app.py:163-219 | no placeholder: refused, table unchanged; planner raises: failed, table unchanged; otherwise the table becomes `Enriched` and a warning is flagged when the planner's question status is not true |
| Enrichment.RunTasks | app.py:192-200 | task `i` runs the row unit on the query filled with the `i`-th selected value |

## Left out

- The Streamlit page, AgGrid previews, file and sheet loaders, authentication and the write-back to a sheet or CSV are user interface and I/O.
- The language models (`generate_entities`, `strict_json_async`), the search and the scrape are external services; they are parameters whose calls either return a value or raise with a message.
- The thread pool and the per-task event loop are modelled only by the order in which the futures complete; true concurrency is not modelled.
- `get_serp` is unused by the code and not modelled; the scrape's API key, URL and HTTP transport are not modelled beyond its arguments.
- Cells are `None` or a value's `str()` form; pandas dtypes, NaN versus None and value coercion on write are not modelled.
- The sheet is assumed to carry the default row index 0 .. n-1; a custom index is not modelled.
- An exception raised by a cell write inside the completion loop is not modelled.
- PyStr.ReplaceAll: requires a non-empty pattern, because every pattern replaced here is `{name}` with a non-empty name.
- PyStr.IsSpace: the whitespace set of `str.isspace()` is written out as fixed code points, with no Unicode database behind it.
- Enrichment.Table.Submit: the planner's `question_status` and `entities` are taken as a boolean and a list of strings; a missing key or an odd type is covered only as a raising planner.
- Enrichment.EnrichedOrderIndependent: proves equal cells and equal column sets, not equal column order, because the order of created columns does depend on completion order.
