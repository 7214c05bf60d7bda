# Election app: a verified model of its core

The application is a small Flask voting site with two tables. The voter registry (`Voter`) holds id, name, date of birth, a `has_voted` flag and an `is_candidate` flag. The tally (`Vote`) holds one row per candidate id with a count. The model covers four things:

- **Login.** A voter logs in with their id and date of birth. Only a voter who has not voted yet gets in.
- **Ballot.** A voter casts a ballot of exactly nine selections. Each selection raises that candidate's count, or creates a row holding 1. The voter is then marked as having voted, all in one commit.
- **Admin page.** An administrator uploads a spreadsheet roster of new voters, and can name candidates as a comma-separated list of ids.
- **Results.** The results page is the join of candidates with their tally rows.

The model has two layers:

- **Pure layer.** Each request handler is a function from the database (`Records.Db`, the two tables as maps) to an outcome and a new database. Every refusal returns the database unchanged. The one exception is an admin POST whose roster import is committed before its candidate list is rejected: the import stays, because app.py:86 commits before app.py:92 parses. Python exceptions that abort a request before its commit (`int()`, `strptime`, a primary-key clash) become explicit error outcomes.
- **Imperative layer.** `Store.ElectionStore` is a class holding the two tables as fields. The source's loops become methods with `while` loops: the ballot loop, the roster-import loop and the candidate update. Each loop works on a pending copy, the way the ORM session stages changes. Each method is proved to produce exactly the pure transition. The store keeps the invariant that the tally holds nine selections per voter who has voted.

Across requests, `Lifecycle` proves four things:

- Every request only extends the database.
- The conservation law holds in every reachable state.
- A voter whose ballot was accepted can never log in again or have a second ballot accepted.
- Every voter who has not yet voted can log in with their id and date of birth as Python writes them.

Modules: `Wrappers` (Option), `Text` (`strip`, `split`, `endswith`, `int()`, `str()`), `Dates` (`'%Y-%m-%d'` dates), `TallyStore` (the tally table), `Records` (the tables and the database), `Auth` (login), `Ballots` (vote POST), `Admin` (admin POST and results), `Lifecycle` (sequences of requests), `Store` (the stateful store).

The model follows the code wherever it is looser than the election's rules. A ballot is meant to name nine *distinct* candidates, but the code only checks `len(selected) != 9` (app.py:56). So a ballot naming the same id twice is accepted and counts that id twice. `Ballots.BallotCounts` states this as "each count rises by the selection's multiplicity".

## Model

| member | source | states |
|---|---|---|
| Records.NewVoter | app.py:18-19 | a newly inserted voter has both `has_voted` and `is_candidate` false (the column defaults) |
| Records.EmptyConserved | app.py:27-28 | the freshly created database satisfies the conservation law (tally total = 9 × voters who voted) |
| Text.StripSlice | app.py:92 | `strip()` returns the slice `s[i..j]` of the text, where everything before `i` and from `j` on is whitespace |
| Text.StripMeaning | app.py:92 | `strip()` returns a slice of the text between a whitespace prefix and a whitespace suffix; the slice is empty exactly when the text is all whitespace, and otherwise neither starts nor ends with whitespace |
| Text.ParseFormatInt | app.py:62 | `int(str(i)) == i` for every integer |
| Text.SplitJoin | app.py:92 | splitting the comma-join of pieces that contain no comma gives the pieces back |
| Dates.ParseDate | app.py:36 | a date that parses is a real calendar day in years 1..9999 |
| Dates.FormatThenParse | app.py:36 | every valid date written as `YYYY-MM-DD` parses back to itself |
| Dates.ParseThenFormat | app.py:36 | text that parses as a date is exactly the canonical `YYYY-MM-DD` rendering of that date |
| TallyStore.Inc | app.py:62-67 | one selection: its candidate's count rises by one (a new row starts at 1), every other count is unchanged, and the row keys gain only that candidate |
| TallyStore.ApplyVotes | app.py:61-67 | after counting a list of selections, each candidate's count has risen by the number of times it occurs in the list |
| TallyStore.ApplyKeys | app.py:61-67 | the tally rows after counting are the old rows plus one per selected candidate |
| TallyStore.TotalInc | app.py:63-67 | one selection raises the total of all counts by exactly one |
| TallyStore.TotalApply | app.py:61-67 | counting a list of selections raises the total by its length |
| Auth.Login | app.py:35-43 | InvalidDateFormat iff the date text does not parse; LoggedIn iff the date parses, the id text is an integer and that id is a registered voter with that date of birth who has not voted; a LoggedIn voter is exactly that voter |
| Auth.LoginAccepts | app.py:36-39 | a registered voter who has not voted logs in with `str(id)` and their date as `YYYY-MM-DD` |
| Auth.LoginSound | app.py:36-39 | a successful login names a registered voter who has not voted, whose id the id text denotes and whose date the date text spells exactly |
| Auth.LoginRefusesVoted | app.py:37-41 | a voter who has voted never logs in, whatever is typed; with a parsing date and their own id the outcome is InvalidCredentials |
| Ballots.ParseSelections | app.py:61-62 | the parsed selections, when all parse, are as many as the selections |
| Ballots.SelectionsValues | app.py:61-62 | when all selections parse, the i-th parsed id is `int()` of the i-th selection |
| Ballots.SelectionsInvalid | app.py:61-62 | when the selections do not parse, some selection is not an integer |
| Ballots.ParseSelectionsMeaning | app.py:61-62 | the selections parse iff every one is an integer, and then each parsed id is that selection's value |
| Ballots.Ballot | app.py:46-71 | each outcome has its own condition. VoterNotFound iff the id is negative (the unsigned route does not match) or unregistered. AlreadyVoted iff the voter has voted. WrongSelectionCount iff the voter may vote and there are not exactly 9 selections. InvalidSelection iff there are 9 selections and one is not an integer. Accepted iff registered, not voted, exactly 9 selections and all integers. Every non-accepted outcome leaves the database unchanged |
| Ballots.BallotCounts | app.py:61-67 | an accepted ballot raises each candidate's count by its multiplicity in the ballot and adds rows for exactly the newly selected candidates |
| Ballots.BallotTotal | app.py:56-69 | the tally total rises by exactly 9 on an accepted ballot and by 0 otherwise |
| Ballots.MarkVotedFlags | app.py:68 | setting the flag of a voter who had not voted adds exactly that id to the voters who voted and keeps the set of candidates |
| Ballots.BallotMarksVoter | app.py:68-69 | an accepted ballot adds exactly this voter, who had not voted, to the voters who voted; it keeps the registry keys and the candidates; only this voter's `has_voted` changes |
| Ballots.BallotConserves | app.py:56-69 | every ballot outcome preserves the conservation law |
| Admin.FirstBadDate | app.py:82-83 | None iff every row's date parses; otherwise the index of a row whose date fails, all earlier rows parsing |
| Admin.ImportRoster | app.py:80-86 | the import succeeds iff every date parses and every row id is new and distinct. A date that fails always gives BadDate, since the loop raises before the commit; DuplicateId arises iff every date parses but an id is reused. A BadDate error names a failing row, and all earlier rows parse |
| Admin.AddedKeys | app.py:82-86 | the staged registry's ids are the old ids plus the row ids |
| Admin.AddedKeepsOthers | app.py:82-86 | a registered voter whose id no row uses is unchanged by staging |
| Admin.AddedRow | app.py:83-85 | the last row with a given id stores that row's name and parsed date with both flags false |
| Admin.AddedContents | app.py:82-86 | with fresh distinct ids, staging keeps every old voter and stores every row as a new voter |
| Admin.ImportContents | app.py:82-86 | a successful import keeps every registered voter unchanged and adds one voter per row with the row's id, name and date, not voted and not a candidate |
| Admin.ImportKeepsFlags | app.py:84 | an import leaves the sets of voters who voted and of candidates unchanged |
| Admin.ParsePiecesSucceeds | app.py:92 | the id-list comprehension succeeds iff every piece is blank or an integer once stripped |
| Admin.ParsePiecesMembers | app.py:92 | a successful comprehension contains exactly the ids that the non-blank pieces denote |
| Admin.Rendered | app.py:92 | the text pieces of an id list are `str()` of each id, in order |
| Admin.ParseRendered | app.py:92 | the comprehension over the rendered ids gives back the id list |
| Admin.ParseIdListRoundTrip | app.py:92 | parsing the comma-joined ids gives back that id list |
| Admin.Designate | app.py:93 | the update keeps the registry keys and the voters who voted; the candidates become the old candidates plus the listed ids that are registered; each record changes only in `is_candidate` |
| Admin.DesignateIdempotent | app.py:93 | applying the same designation twice equals applying it once |
| Admin.SetCandidates | app.py:90-95 | the registry changes iff the field is non-empty and parses, and then it is the designation of the parsed ids; otherwise it is unchanged |
| Admin.SetCandidatesIdempotent | app.py:90-95 | submitting the same candidate field twice equals submitting it once |
| Admin.AdminPost | app.py:77-95 | the tally is never touched. NoUpload iff there is no `.xlsx` file; the registry and candidate outcome are then the candidate update of the old registry. With a spreadsheet: RosterRejected carries the import error, skips the candidate field and leaves the database unchanged; RosterImported iff the import succeeds, and the registry and candidate outcome are then the candidate update of the imported registry |
| Admin.ImportSurvivesRejectedList | app.py:86-92 | after a good upload, a candidate list that fails to parse is reported as rejected, and the imported voters stay committed |
| Admin.AdminKeepsVotes | app.py:77-95 | no admin request changes the tally or the set of voters who voted |
| Admin.AdminConserves | app.py:77-95 | every admin request preserves the conservation law |
| Admin.Results | app.py:98 | the result rows are keyed by exactly the candidates that have a tally row, each holding the candidate's name and count |
| Admin.ReportedIsSum | app.py:98 | the votes shown sum to the tally counts of the shown candidates |
| Admin.ResultsBounded | app.py:98 | the page never shows more votes than the tally holds |
| Admin.ResultsComplete | app.py:98 | when every tally row belongs to a candidate, the page shows every vote: 9 per voter who voted |
| Lifecycle.GrowsTransitive | app.py:30-99 | the "only extends" relation between databases is transitive |
| Lifecycle.BallotGrows | app.py:48-71 | a ballot keeps every voter's name and date, never clears a flag, and never lowers a count or the total |
| Lifecycle.DesignationGrows | app.py:90-95 | the candidate update only extends the database |
| Lifecycle.AdminGrows | app.py:77-95 | an admin request only extends the database |
| Lifecycle.StepGrows | app.py:30-99 | every request only extends the database |
| Lifecycle.ImportDatesValid | app.py:82-86 | after an import every stored date of birth is a real calendar day |
| Lifecycle.AdminKeepsInvariant | app.py:77-95 | an admin request keeps conservation and the validity of stored dates |
| Lifecycle.StepKeepsInvariant | app.py:30-99 | every request keeps conservation and the validity of stored dates |
| Lifecycle.RunGrows | app.py:30-99 | any sequence of requests only extends the database: `has_voted` is monotone and counts never decrease |
| Lifecycle.RunKeepsInvariant | app.py:30-99 | any sequence of requests from a consistent database ends in a consistent one |
| Lifecycle.ReachableConserved | app.py:27-99 | in every state reachable from the fresh database the tally total is 9 × voters who voted |
| Lifecycle.VoteOnce | app.py:49-51 | after an accepted ballot, whatever requests follow, that voter's next ballot is AlreadyVoted and their login never succeeds |
| Lifecycle.NonCandidateVotesHidden | app.py:98 | a concrete accepted ballot whose nine selections name a non-candidate: it keeps the conservation law (9 votes for 1 voter) and the results page shows 0 votes |
| Lifecycle.ReachableLogin | app.py:35-39 | in every reachable state a registered voter who has not voted logs in with `str(id)` and their date as `YYYY-MM-DD` |
| Store.CountSelections | app.py:61-67 | the ballot loop fails iff some selection is not an integer, and otherwise yields the tally with every selection counted |
| Store.StageRoster | app.py:82-86 | the import loop and its commit give exactly the pure import result |
| Store.FlagCandidates | app.py:93 | the bulk update loop gives exactly the designation of the listed ids |
| Store.ElectionStore.constructor | app.py:27-28 | a new store holds the empty database and satisfies the invariant (conservation and valid stored dates) |
| Store.ElectionStore.SubmitBallot | app.py:48-71 | the outcome and the new tables are exactly the pure ballot transition of the old tables; the invariant is preserved |
| Store.ElectionStore.UploadRoster | app.py:80-87 | the registry becomes the imported one on success and is unchanged on failure; the tally is untouched; the invariant is preserved |
| Store.ElectionStore.MarkCandidates | app.py:90-95 | the outcome and the new registry are exactly the pure candidate update; the tally is untouched; the invariant is preserved |
| Store.ElectionStore.HandleAdmin | app.py:77-95 | the outcome and the new tables are exactly the pure admin transition; the invariant is preserved |

## Left out

- The web layer is not modelled: Flask routing, templates, flash messages, redirects, the session secret and `app.run`. Each handler's result is an outcome value instead.
- The GET pages are not modelled: the login form, the vote page's candidate query (app.py:53, 73) and the admin page render. They only read.
- The ORM mechanics are not modelled. `get_or_404` is the VoterNotFound outcome. A session that raises before `commit()` is modelled as the request leaving the database unchanged.
- Foreign keys are not enforced, which matches the SQLite connection: a tally row need not belong to a candidate, or even to a registered voter.
- The ballot does not require a prior login, as in the source: the voter id comes from the URL. The route's converter accepts only unsigned integers, so a negative id is a 404. `Ballots.Ballot` reports that as VoterNotFound, even for a roster voter stored under a negative id.
- Reading the spreadsheet (`pd.read_excel`) is not modelled. The roster is given as a sequence of rows whose date cell is already text, namely what `str(row['DOB'])` returns. pandas turns a date-typed Excel cell into a timestamp whose `str()` has a time part, so such a cell would not parse. The model does not capture that conversion.
- Dates.ParseDate: accepts only `YYYY-MM-DD` with four, two and two digits. `strptime('%Y-%m-%d')` needs exactly four year digits, but also accepts a one-digit month or day (`2000-1-5`) and a space-padded day (`2000-01- 5`). On those inputs the model reports an invalid date where Python would accept it.
- Text.StripMeaning: whitespace is the ASCII set that `strip()` and `int()` use: space, tab through carriage return, and 0x1C to 0x1F. Non-ASCII whitespace such as U+0085 and U+00A0 is not modelled, nor are the Unicode digits and the `_` between digits that `int()` accepts.
- Auth.Login: the id text is compared through the integer parser. This approximates SQLite's conversion of the text parameter against the integer `id` column. Text that SQLite matches but `int()` rejects, such as `5.0`, would make `url_for` at app.py:39 raise ValueError. The handler at app.py:42 would catch that and report "Invalid date format.", and the model does not capture this. The model takes both fields as text. A missing `dob` field (`None`) makes `strptime` raise TypeError, which app.py:42 does not catch, so the source answers with a server error and the model has no outcome for it.
- Integers are unbounded. SQLite's 64-bit limit on ids and counts is not modelled.
- Concurrent requests are not modelled. Each request is one atomic transition.
- The order of the result rows is not modelled. The query promises none, so results are a map keyed by candidate id.
