# pyunhrcnominate in Dafny

A model of the data-shaping core of pyunhrcnominate. The tool scrapes the
recorded votes of the UN Human Rights Council and stores them in a vote
database. It then reconstructs periods of stable Council membership
("sessions") and exports the votes as the CSV inputs of a DW-NOMINATE
analysis and as a spreadsheet.

The modules follow the program's files:

| module | file | what it holds |
|---|---|---|
| `Types` | `types.dfy` | the `Vote` enumeration, its integer values and names, the letter decoder `from_record_value`, the ordered vote map (`Votes`, `Put`, `Lookup`) |
| `Enrich` | `enrich.dfy` | the roster key and `calculate_sessions`, a fold that returns the sessions or a `Regression` error |
| `Runs` | `runs.dfy` | runs of equal keys in a stream: the reference definition the session fold is proved against |
| `Scrape` | `scrape.dfy` | the vote-entry normalisation of `record_to_resolution` and the page loop of `resolutions` |
| `Export` | `export.dfy` | vote loading, the country union, the vote matrix, the keyword filter, the year batches, the legislator alignment |
| `Excel` | `excel.dfy` | category grouping, the spreadsheet header, the tallies and the per-country cells |
| `Buckets` | `buckets.dfy` | the "append to the list under this key, or start one" dictionary pattern shared by the year batches and the category grouping |
| `Strings`, `Seqs`, `Results` | | code-point order and sorting, ASCII case, joining and splitting on the pipe character, sequences of parts, `Option`/`Result` |

Conventions:

- Python dictionaries that keep insertion order are sequences with distinct keys.
  Assignment to an existing key replaces its value in place; a new key goes at the end.
- A `breakpoint()` that stops the program on bad input becomes an error value: `None` or `Failure(...)`.
  A `KeyError` also becomes `None`.
- Dates are `Date(year, month, day)`, ordered lexicographically by `DateLe`.
- The database, the network and the files are replaced by sequences passed in as parameters.

## Model

| member | source | states |
|---|---|---|
| Types.FromValue | pyunhrcnominate/types.py:6-11 | `Vote(n)` exists exactly for n in 0..4, and then the member's value is n |
| Types.ValueRoundTrip | pyunhrcnominate/types.py:6-11 | the five values are distinct: reading a member's value back gives that member |
| Types.FromRecordValue | pyunhrcnominate/types.py:13-20 | the decoder accepts exactly the one-letter strings N, Y, A, `.` in either case, and never yields NOT_IN_SESSION |
| Types.RecordLetters | pyunhrcnominate/types.py:15-19 | N/n decode to NO, Y/y to YES, A/a to ABSTAIN, `.` to NO_VOTE |
| Types.RecordValueIgnoresCase | pyunhrcnominate/types.py:15 | decoding a string and decoding its upper-case form agree |
| Types.StoredNamesRejected | pyunhrcnominate/types.py:13-20 | every enumeration name falls to the decoder's error case (see Findings) |
| Types.FromStoredName | pyunhrcnominate/scrape.py:97 | decoding a stored name: a success gives a member with exactly that name |
| Types.StoredNameRoundTrip | pyunhrcnominate/scrape.py:97 | every member's stored name decodes back to that member |
| Types.Put | pyunhrcnominate/scrape.py:59 | dict assignment: the key maps to the new vote, every other key keeps its vote, the key order is kept and a new key goes last |
| Enrich.RosterKeyOfEqualSets | pyunhrcnominate/enrich.py:15 | rows with the same set of voters get the same roster key, whatever their order and repeats |
| Enrich.RosterKeyIffSameSet | pyunhrcnominate/enrich.py:33 | for codes that are non-empty and free of the pipe character, two rosters have the same key exactly when their voter sets are equal |
| Enrich.SucceedsIffNoFlap | pyunhrcnominate/enrich.py:38-39 | the reconstruction succeeds exactly when no roster key reappears after the key has changed away from it |
| Enrich.RegressionReported | pyunhrcnominate/enrich.py:38-39 | on failure, the error names the first flapping row, its date and the index of the session that already holds the roster |
| Enrich.SessionNumbering | pyunhrcnominate/enrich.py:27-54 | sessions are numbered 1..n; there is one per run of equal keys, so none for no rows; each row's run number is in 1..n and never decreases along the stream |
| Enrich.SessionResolutions | pyunhrcnominate/enrich.py:44-50 | session i's resolutions are exactly the ids of the rows of run i |
| Enrich.ResolutionsPartitioned | pyunhrcnominate/enrich.py:41-50 | with distinct ids, each row's id lies in exactly one session, the one of its run |
| Enrich.SessionsAreContiguous | pyunhrcnominate/enrich.py:38-51 | the rows between two rows of one run belong to that run and carry its key |
| Enrich.SessionIsInterval | pyunhrcnominate/enrich.py:41-50 | with distinct ids, the rows whose ids a session holds form one interval of the stream |
| Runs.RunCountIsChangesPlusOne | pyunhrcnominate/enrich.py:38-51 | for a non-empty stream, the number of runs, and so of sessions, is one more than the number of roster changes |
| Enrich.SessionMembers | pyunhrcnominate/enrich.py:44 | a session's members are the voters of the row that opened it; with clean codes, they are the voters of every row of the session |
| Enrich.SessionFirstVotes | pyunhrcnominate/enrich.py:44 | `first_vote` is the date of the session's first row; on a date-ascending stream it is no later than any of its rows |
| Enrich.SessionLastVotes | pyunhrcnominate/enrich.py:49 | `last_vote` is the date of the session's last row; on a date-ascending stream it is no earlier than any of its rows |
| Enrich.SessionDatesOrdered | pyunhrcnominate/enrich.py:44-49 | on a date-ascending stream, every session's `first_vote` is no later than its `last_vote` |
| Enrich.DistinctMemberSets | pyunhrcnominate/enrich.py:41-46 | no two sessions have the same members |
| Enrich.FoldLoop | pyunhrcnominate/enrich.py:32-51 | the loop computes the fold, and succeeds exactly when the keys never flap |
| Enrich.CalculateSessions | pyunhrcnominate/enrich.py:26-54 | the program yields the same sessions or error as the fold |
| Scrape.NormaliseVoteOfEntry | pyunhrcnominate/scrape.py:52-57 | a country whose last valid entry has no vote letter is recorded as NO_VOTE; otherwise its vote is the decoding of that letter |
| Scrape.NormaliseFailsIffRejected | pyunhrcnominate/scrape.py:45-59 | normalisation fails exactly when some kept entry carries a letter the decoder rejects |
| Scrape.NormaliseReportsFirstRejected | pyunhrcnominate/scrape.py:53 | the failure names the first such entry and its letter |
| Scrape.NormaliseDropsInvalid | pyunhrcnominate/scrape.py:48-50 | the vote map's countries are exactly the three-character codes that occur among the entries |
| Scrape.NormaliseKeyOrder | pyunhrcnominate/scrape.py:59 | the countries keep the order of their first valid entry |
| Scrape.NormaliseLastWins | pyunhrcnominate/scrape.py:59 | a country's vote is that of its last valid entry |
| Scrape.RecordToResolution | pyunhrcnominate/scrape.py:38-61 | a record converts exactly when no kept entry is rejected; name, date, summary and agenda are carried over, and the votes are the normalised entries, so the properties of the normalisation above hold of the resolution |
| Scrape.FirstEmpty | pyunhrcnominate/scrape.py:75-76 | the loop stops at the first empty page: every earlier page is non-empty |
| Scrape.Harvest | pyunhrcnominate/scrape.py:69-80 | pages are requested at offsets 0, 100, 200, ...; the records are those of the pages before the first empty one, in page order |
| Export.LoadSucceedsIff | pyunhrcnominate/export.py:16 | loading succeeds exactly when every stored vote decodes |
| Export.LoadVotesAsWritten | pyunhrcnominate/export.py:10-16 | the load as written succeeds exactly when every stored text passes `from_record_value` |
| Export.StoredVotesNeverLoad | pyunhrcnominate/export.py:16 | a resolution with at least one stored vote never loads as written (see Findings) |
| Export.LoadVotes | pyunhrcnominate/export.py:10-16 | the corrected load succeeds exactly when every stored name decodes, and yields distinct countries |
| Export.LoadStoreRoundTrip | pyunhrcnominate/export.py:10-16 | loading what was stored gives back the same votes in the same order |
| Export.VotersMembers | pyunhrcnominate/export.py:36-40 | the collected set holds exactly the countries that voted on some resolution |
| Export.CountriesForResolutions | pyunhrcnominate/export.py:35-42 | the country list is strictly increasing and holds exactly the countries that voted on some resolution |
| Export.CountriesForResolutionsUnique | pyunhrcnominate/export.py:42 | it is the only list with those two properties |
| Export.Cell | pyunhrcnominate/export.py:56-62 | a cell is one digit in 0..4, and "4" for a country that did not vote |
| Export.CellRoundTrip | pyunhrcnominate/export.py:56-62 | reading a cell back gives the country's vote, or NOT_IN_SESSION when it did not vote |
| Export.VotesTableDecodes | pyunhrcnominate/export.py:50-64 | the header is "Country" then the resolution names in order; every row is as wide as the header, starts with its country, and each cell reads back as that country's vote on that column's resolution |
| Export.FilterMembers | pyunhrcnominate/export.py:102-111 | a resolution is kept exactly when it is in the input and its lower-cased summary contains some lower-cased keyword, or there are no keywords |
| Export.FilterAppend | pyunhrcnominate/export.py:102-111 | filtering keeps relative order: it distributes over concatenation |
| Export.FilterNoKeywords | pyunhrcnominate/export.py:104 | with no keywords every resolution is kept |
| Export.SelectResolutions | pyunhrcnominate/export.py:99-111 | the loop with its early `break` computes the filter |
| Export.BatchAll | pyunhrcnominate/export.py:113-114 | the first batch is "all", holding the filtered list itself |
| Export.YearBatchKeys | pyunhrcnominate/export.py:116-123 | after "all" there is one batch per year, in order of each year's first appearance |
| Export.YearBatches | pyunhrcnominate/export.py:116-123 | each year batch holds the filtered resolutions of its year, in their original order |
| Export.YearBatchMembers | pyunhrcnominate/export.py:116-123 | a resolution is in a year batch exactly when it is filtered and dated in that year |
| Export.OneYearBatchEach | pyunhrcnominate/export.py:116-123 | every filtered resolution is in exactly one year batch |
| Export.CountryNamed | pyunhrcnominate/export.py:87-88 | looking a name up in the countries table fails exactly when no row has that short name; a hit has that short name |
| Export.CountryNamedIsLast | pyunhrcnominate/export.py:87 | the dictionary built from the table keeps the last row with each short name |
| Export.AlignCountries | pyunhrcnominate/export.py:88 | the legislator list succeeds exactly when every name is known, and is then aligned index for index with the names |
| Export.LegislatorsFailIffUnknownVoter | pyunhrcnominate/export.py:84-88 | the alignment fails exactly when some voter is missing from the countries table |
| Excel.CountryMap | pyunhrcnominate/excel.py:16-25 | the category map keeps the grouping's categories, and each list is the grouped list sorted ascending |
| Excel.CategoryKeys | pyunhrcnominate/excel.py:18-22 | there is one group per distinct category |
| Excel.CategoryOrder | pyunhrcnominate/excel.py:18-25 | categories appear in the order of their first row in the table |
| Excel.GroupMembers | pyunhrcnominate/excel.py:18-25 | a code is in a group exactly when some row has that code and the group's category |
| Excel.OwnGroupOnly | pyunhrcnominate/excel.py:18-22 | with unique codes, every country is in exactly one group, the one of its own category |
| Excel.Header | pyunhrcnominate/excel.py:32 | the header starts with the eleven fixed columns |
| Excel.HeaderAt | pyunhrcnominate/excel.py:33-34 | each category section is `""`, the category, then its countries |
| Excel.TallyCounts | pyunhrcnominate/excel.py:42-43 | a tally is the number of votes with that value |
| Excel.TalliesCover | pyunhrcnominate/excel.py:42-43 | the tallies of all five values sum to the number of votes |
| Excel.FourTalliesCover | pyunhrcnominate/excel.py:42-43 | with no NOT_IN_SESSION vote, the four written tallies sum to the number of votes |
| Excel.TallyColumns | pyunhrcnominate/excel.py:32-43 | the YES, NO, ABSTAIN, NO_VOTE tallies sit under "Yes", "No", "Abstain", "Missing" |
| Excel.CellNameRoundTrip | pyunhrcnominate/excel.py:49-52 | a cell reads back as the country's vote, or NOT_IN_SESSION when it did not vote |
| Excel.VoteSection | pyunhrcnominate/excel.py:46-52 | a category's row section is as long as its header section: `""`, the category, one cell per country |
| Excel.RowWidth | pyunhrcnominate/excel.py:39-52 | a row is as wide as the header |
| Excel.RowAt | pyunhrcnominate/excel.py:46-52 | the cell of a country sits at the same place as that country in the header |
| Excel.RowUnderHeader | pyunhrcnominate/excel.py:32-52 | under every header cell of a category section the row holds the same text, or that country's vote |
| Buckets.GroupFromShaped | pyunhrcnominate/export.py:117-123 | appending under a key or starting a new list yields the initial entries, then one entry per new key in first-seen order, each with exactly that key's values in order |
| Buckets.HavingMembers | pyunhrcnominate/excel.py:18-22 | a value is in a key's list exactly when it was listed under that key |
| Buckets.FirstSeenOrder | pyunhrcnominate/excel.py:18-20 | keys keep the order of their first appearance |

## Left out

- The SQLite database: schema creation, `clear_tables`, queries and inserts. Query results are parameters: the rows of `resolutions()` in date order, a resolution's stored votes, the countries table in table order.
- `save_session`: its body is only a `breakpoint()`, so nothing is saved.
- The HTTP fetch and the XPath extraction of the MARC 21 records. A record is its name, date, summary, agenda and a list of `(country, optional vote letter)` entries. A page is a sequence of records.
- Scrape.Harvest: the server's pages are a finite sequence, so the model does not describe a server that never returns an empty page.
- The CSV writers, `write_vote_data`, `write_country_data`, file opening, `/tmp/out.csv` and `make_output_dir`: they are file output. Rows are modelled as sequences of cells.
- The first seven fields of a spreadsheet row (excel.py:39): they call `resolution_type()`, `session()` and `passed()`, which are not defined in the shown types.py. `Excel.Row` takes them as a parameter.
- `strptime`, `strftime` and `fromisoformat`: dates are already parsed.
- `str.upper` and `str.lower` cover ASCII letters only, not full Unicode case mapping.
- argparse, the `__main__` blocks and every `print` diagnostic.
- `Session` and `Country` are not defined in the shown types.py. `Session` is built from its use at enrich.py:44 and `Country` from excel.py and export.py.
- `Resolution` in types.py has four fields, but scrape.py:61 passes a fifth, `agenda`. The scraper's result carries the agenda beside the resolution.
- Enrich.CalculateSessions: the roster keys are computed for all rows before the loop rather than inside it. Each key depends only on its own row, so the results are the same.
- Enrich.SessionLastVotes: `last_vote` is assigned on every row, as the code does. It is not a running maximum; the two agree on a date-ascending stream.
- The year batches are keyed by a `BatchKey` datatype (`All` or `Year(n)`) instead of the strings `'all'` and `str(year)`. A decimal year never spells `all`, so the key sets correspond one to one.
- Export.LoadVotes: the dictionary comprehension at export.py:16 is abandoned by its first decoding error. The model decodes every row first and then builds the map; the results are the same.
- Export.CountryNamed: a short name missing from the table is `None`, not a `KeyError`.

## Findings

| source | as written | input that shows it | evidently intended | confidence | as-written member | corrected member |
|---|---|---|---|---|---|---|
| pyunhrcnominate/export.py:16 | The scraper stores each vote as its enumeration name, `vote.vote.name` (scrape.py:97). The loader decodes that text with `Vote.from_record_value`, which accepts only the single letters N, Y, A and `.`. Every stored name ("NO", "YES", "ABSTAIN", "NO_VOTE", "NOT_IN_SESSION") falls to its `breakpoint()`. | any resolution with one stored vote, e.g. country "AUS" voting YES, stored as the row ("AUS", "YES") | the loader decodes the stored names back into the votes that were stored | not executed | Types.StoredNamesRejected, Export.StoredVotesNeverLoad | Types.FromStoredName, Export.LoadStoreRoundTrip |
