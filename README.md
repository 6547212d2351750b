# Study planner: a verified model of its store, session and escaping

The system is a small Flask study planner. Students register, optionally
linked to a mentor by the mentor's code. They log in and keep a list of
subjects, each with an exam date, a number of units and the units done so
far. Mentors log in with their code and see their students' subjects. This
project models the part of `app.py` that reads and writes the SQLite
database and the browser session, plus the `escapeHtml` encoder of
`static/app.js`, and proves what those handlers promise.

Layout, one module per file:

- `wrappers.dfy` (`Wrappers`): `Option` and `Result`.
- `text.dfy` (`Text`): Python's `str.strip()` over the `str.isspace()` set, and the order SQLite's BINARY collation gives TEXT.
- `exam_date.dfy` (`ExamDate`): `datetime.strptime(s, "%Y-%m-%d")` as a parser into calendar dates.
- `escape_html.dfy` (`Html`): `escapeHtml` as the chain of five `replaceAll` calls, with an independent one-pass reference encoding and its decoder.
- `sessions.dfy` (`Sessions`): the Flask session as a map from the five keys the handlers use to values, the two login gates and the principal a session stands for.
- `tables.dfy` (`Tables`): the three tables as sequences of records in rowid order, their invariants, and the SQL statements the handlers run, as functions.
- `store.dfy` (`Server`): class `Store` holds the tables, the AUTOINCREMENT counters and the session. It has one method per route handler, each one atomic step that updates the fields in place.

The store invariant `Store.Valid` covers:

- ids are positive, increasing and below the counters;
- mentor codes and usernames are unique;
- every user's mentor exists;
- every subject has `0 <= units_completed <= total_units`, with `total_units > 0`;
- the session is empty, one student or one mentor.

Every method that changes the store requires `Valid` and ensures it again.

Three behaviours of the code are easy to misread, and the model keeps them:

- A difficulty made only of spaces is not replaced by "Medium". `(x or "Medium").strip()` only falls back for a missing or empty value, so spaces alone strip to "".
- The comment at app.py:212 expects `yyyy-mm-dd`, but `strptime` also accepts one-digit months and days, and a day padded with a space (`"2025-6- 1"`).
- The update statement filters by `id` alone. Ownership is checked by the `SELECT` before it. Since ids are unique, exactly the owned row changes (`Tables.SetUnitsOneRow`).

## Model

| member | source | states |
|---|---|---|
| Text.Strip | app.py:94 | what `strip()` returns has no whitespace character at either end and is no longer than its input |
| Text.StripInfix | app.py:94 | what `strip()` keeps is the infix of the input between a leading and a trailing run of whitespace |
| Text.StripSplit | app.py:94 | the input is what `strip()` returns with a run of whitespace only before it and a run of whitespace only after it |
| Text.StripAllSpace | app.py:197-198 | the stripped text is empty exactly when every character of the input is whitespace |
| Text.StripUnchanged | app.py:200 | text with no whitespace at its ends is returned unchanged |
| Text.StripIdempotent | app.py:120-122 | stripping twice equals stripping once |
| Text.TrimStartShape | app.py:94 | the leading trim keeps the suffix after an all-whitespace prefix |
| Text.TrimEndShape | app.py:94 | the trailing trim keeps the prefix before an all-whitespace suffix |
| Text.TextLeReflexive | app.py:324 | the username order is reflexive |
| Text.TextLeTotal | app.py:324 | any two usernames are ordered one way or the other |
| Text.TextLeAntisymmetric | app.py:324 | two usernames ordered both ways are equal |
| Text.TextLeTransitive | app.py:324 | the username order is transitive |
| ExamDate.DaysInMonth | app.py:213-216 | months have 28 to 31 days; 29 exactly for February of a leap year, 28 for February otherwise, 30 exactly for April, June, September and November |
| ExamDate.ParseDate | app.py:213-216 | every date `strptime` accepts is a calendar date with year 1..9999 and a day that exists in its month |
| ExamDate.ParseFormat | app.py:213-216 | every calendar date written with a four-digit year and a zero-padded or unpadded month and day (the day may also be space-padded) is accepted and read back as that date |
| ExamDate.ParseDateExactly | app.py:213-216 | `strptime` reads text as date d exactly when d is a calendar date and the text is one of d's accepted spellings |
| ExamDate.LeapDay | app.py:213-216 | February 29th of year y passes exactly when y is a Gregorian leap year |
| ExamDate.LeapDayText | app.py:213-216 | the text of February 29th of year y, when accepted, is read as that date |
| ExamDate.DigitsFour | app.py:213-216 | four digits denote a year in 0..9999 whose four-digit spelling is that text |
| ExamDate.FourDigitsValue | app.py:213-216 | the four-digit spelling of a year reads back as that year |
| ExamDate.MonthTokenSpelled | app.py:213-216 | a month accepted by `%m` is 1..12 and is the padded or unpadded spelling of that number |
| ExamDate.DayTokenSpelled | app.py:213-216 | a day accepted by `%d` is 1..31 and is the unpadded, zero-padded or space-padded spelling of that number |
| ExamDate.TwoDigitsToken | app.py:213-216 | every spelling of 1..31 is accepted by `%d` with that value, and of 1..12 (not space-padded) by `%m` |
| Html.EscapeHtml | static/app.js:71-72 | the result is empty exactly when the input is absent or empty |
| Html.EscapeHtmlSafe | static/app.js:72-74 | the result holds no `<`, `>`, `"` or `'`, and every `&` in it starts one of the five entities |
| Html.EscapeHtmlKeepsPlainText | static/app.js:72-74 | a character other than the five special ones is copied into the output in place, between the escapes of what precedes and follows it |
| Html.EscapeHtmlInjective | static/app.js:72-74 | distinct inputs give distinct outputs |
| Html.EscapeHtmlLength | static/app.js:72-74 | the output is at least as long as the input, equally long exactly when the input has none of the five special characters, and then equal to it |
| Html.EscapeHtmlLessThan | static/app.js:72-73 | for the input `<` the output is `&lt;`, not `&amp;lt;`: the ampersand of an entity made by a later replacement is not escaped again |
| Html.ReplaceChainIsEncode | static/app.js:72-74 | the five chained replacements, `&` first, equal replacing each character by its entity in one pass |
| Html.DecodeEncode | static/app.js:72-74 | reading the five entities back recovers the input of the one-pass encoding |
| Html.EncodeSafe | static/app.js:72-74 | the one-pass encoding has no markup character and every `&` starts an entity |
| Html.EncodeLength | static/app.js:72-74 | the one-pass encoding never shortens, and keeps the length exactly when nothing is special |
| Html.EncodeConcat | static/app.js:72-74 | the one-pass encoding distributes over concatenation |
| Html.ReplaceAll | static/app.js:72 | `replaceAll` changes nothing when the pattern is absent, and leaves no pattern character when the replacement has none |
| Html.ReplaceAllConcat | static/app.js:72 | `replaceAll` distributes over concatenation |
| Html.ChainOnChar | static/app.js:72-74 | the chain turns each single character into its entity, or leaves it alone |
| Html.Entity | static/app.js:72-74 | the five special characters become text starting with `&`; every other character stays itself |
| Html.DecodeEntity | static/app.js:72-74 | an entity followed by any text decodes to its character followed by the decoding of that text |
| Sessions.PrincipalOf | app.py:75-80 | a well-formed session stands for nobody exactly when it is empty |
| Sessions.GatesExclusive | app.py:75-80 | in a well-formed session the student and mentor gates never both pass, and each passes exactly for its own kind of principal |
| Sessions.StudentSession | app.py:106-109 | after clearing and writing the three student keys the session is well-formed, stands for that student, passes the student gate and fails the mentor gate |
| Sessions.MentorSession | app.py:296-298 | after clearing and writing the two mentor keys the session is well-formed, stands for that mentor, passes the mentor gate and fails the student gate |
| Tables.FindFirst | app.py:58-59 | `fetchone()` after a filtered `SELECT` gives the first matching row in rowid order, and none exactly when no row matches |
| Tables.FindMentorByCode | app.py:59-60 | the lookup finds the first mentor with that code, and finds none exactly when no mentor has it |
| Tables.SeedDefaultMentor | app.py:59-66 | afterwards the default mentor code is present; the table only grows, by one row exactly when the code was absent |
| Tables.SeedIdempotent | app.py:59-66 | seeding a second time changes nothing |
| Tables.FindUserByName | app.py:99-100 | the lookup finds the first user with that name, and finds none exactly when no user has it |
| Tables.AppendUser | app.py:139-144 | inserting a user with the next id, a new username and an existing mentor keeps ids increasing, usernames unique and mentor links resolving |
| Tables.AppendSubject | app.py:218-223 | inserting a subject with the next id and units within bounds keeps ids increasing and progress bounded |
| Tables.FindOwnedSubject | app.py:248-249 | the lookup finds a row with that id and that owner, and finds none exactly when no row has both |
| Tables.DeleteOwned | app.py:270 | the delete never adds rows |
| Tables.DeleteOwnedRows | app.py:270 | the rows left are exactly the rows that do not match both the id and the owner |
| Tables.DeleteOwnedNoMatch | app.py:270 | when no row matches both the id and the owner, the table is unchanged |
| Tables.DeleteOwnedAscending | app.py:270 | deleting keeps the ids in increasing order |
| Tables.DeleteOwnedAtMostOne | app.py:270 | with unique ids, at most one row is removed |
| Tables.DeleteOwnedIdempotent | app.py:270 | deleting twice equals deleting once |
| Tables.SetUnitsWhereId | app.py:257 | every row with that id gets the new units and every other row is unchanged |
| Tables.SetUnitsOneRow | app.py:248-257 | with unique ids, updating by the found row's id changes only `units_completed` of that one row |
| Tables.SetUnitsKeeps | app.py:254-257 | a units value within the row's bounds keeps ids and progress bounds |
| Tables.ClampUnits | app.py:240-241 | the stored units lie in `0..total_units`; an in-range request is kept, a negative one becomes 0, one above the total becomes the total |
| Tables.SubjectsNewestFirst | app.py:183 | the listing is no longer than the table |
| Tables.SubjectsNewestFirstRows | app.py:183 | the listing holds exactly the rows of that owner |
| Tables.SubjectsNewestFirstDescending | app.py:183 | the listing is in strictly decreasing id order |
| Tables.UsersOfMentor | app.py:324 | the filtered users are no more than the table |
| Tables.UsersOfMentorRows | app.py:324 | the filtered users are exactly those whose mentor is that mentor |
| Tables.InsertByUsername | app.py:324 | insertion adds exactly the one user to the multiset of users |
| Tables.InsertByUsernameLowerBound | app.py:324 | a name at or before the inserted user's and every existing name is at or before every name after insertion |
| Tables.InsertByUsernameSorted | app.py:324 | insertion into a list in username order keeps it in username order |
| Tables.SortByUsername | app.py:324 | sorting is a permutation |
| Tables.SortByUsernameSorted | app.py:324 | sorting leaves the users in username order |
| Tables.StudentsOfMentorExactly | app.py:324-325 | the mentor's students are in username order and are exactly the users linked to that mentor |
| Tables.RowsFrom | app.py:268-270 | the row bounds hold of any table whose rows all come from a table where they hold |
| Server.DifficultyOf | app.py:200 | a missing or empty difficulty becomes "Medium", one of spaces only becomes "", and the result is "Medium" exactly in those fallback cases or when the input strips to "Medium" |
| Server.DifficultyTrimmed | app.py:200 | a given, non-empty difficulty is stored as the given text with a whitespace-only run removed before and after it, leaving no whitespace at either end |
| Server.ValidateSubject | app.py:196-216 | each error answer ("Missing fields", "Total units must be > 0", "Invalid exam date") occurs exactly under its condition, in the source's order; otherwise the stripped name, the stripped date, the units and the difficulty are accepted |
| Server.Store.constructor | app.py:19-56 | the freshly created database has empty tables with counters at 1, and there is no session |
| Server.Store.InitDb | app.py:58-66 | the default mentor is inserted with the next id only when its code is absent; the invariant is kept |
| Server.Store.StudentLogin | app.py:93-110 | on a matching username and password the session is cleared and then holds that student only; otherwise the session is unchanged and the page shows "Invalid username or password" |
| Server.Store.StudentRegister | app.py:119-150 | an empty name or password, an unknown non-empty mentor code or a taken username is refused with its message and adds nothing; otherwise exactly one user is appended with the next id and the mentor of the code, or none without a code |
| Server.Store.Logout | app.py:154-156 | the session is empty |
| Server.Store.ApiGetSubjects | app.py:176-188 | without a student login the answer is unauthenticated; otherwise it is exactly that student's subjects, in decreasing id order, and nothing changes |
| Server.Store.ApiAddSubject | app.py:192-227 | without a login, or on each validation failure, nothing changes; a `total_units` outside SQLite's signed 64-bit INTEGER range is a server error and changes nothing; otherwise exactly one row is appended, with an id above all existing ids, the session user as owner, no units done and the validated fields |
| Server.Store.ApiUpdateSubject | app.py:231-260 | without a login, without a number, or for an id that is absent or owned by someone else, nothing changes; an id outside SQLite's signed 64-bit INTEGER range is a server error and changes nothing; otherwise only `units_completed` of that one row changes, to the clamped request |
| Server.Store.ApiDeleteSubject | app.py:264-273 | an id outside SQLite's signed 64-bit INTEGER range is a server error and changes nothing; otherwise the answer is ok whenever a student is logged in, and the subjects table becomes the table without the row matching both id and owner |
| Server.Store.MentorLogin | app.py:283-299 | on a matching code and password the session is cleared and then holds that mentor only; otherwise the session is unchanged and the page shows "Invalid mentor login" |
| Server.Store.MentorLogout | app.py:303-305 | the session is empty |
| Server.Store.SubjectsPerStudent | app.py:327-331 | one entry per given student, in the same order, holding its id, its username and exactly its own subjects newest first |
| Server.Store.MentorApiStudents | app.py:316-334 | without a mentor login the answer is unauthenticated; otherwise one entry per student of that mentor, in username order, each with that student's subjects newest first, and nothing changes |

## Left out

- Flask routing, templates, redirects and HTTP status codes: each handler's answer is a `Response` value; a rendered form with an error is `PageError`, and an exception the handler does not catch is `ServerError`.
- The pages that only render a template behind a gate (`home`, `register_page`, `add_subject_page`, `dashboard_page`, `mentor_login_page`, `mentor_dashboard`): only their gates, `LoginRequired` and `MentorLoginRequired`, are modelled.
- SQLite connections, transactions and SQL text: tables are sequences in rowid order and AUTOINCREMENT is a counter. The CREATE TABLE statements of `init_db` are the `Store` constructor.
- werkzeug password hashing: a hash is an abstract credential holding the password, so `check(hash(p), p)` holds by construction; the random salt is not modelled.
- `datetime.now().isoformat()` for `created_at`: it is the `now` parameter of `ApiAddSubject`.
- Python's `int()` coercion of JSON values: `total_units` and `units_completed` arrive as `Option<int>`, with `None` for missing or not a number. So the "Total units must be a number" answer (app.py:209-210) cannot occur, and strings or floats that `int()` would convert are not modelled.
- JSON values of other types for `name`, `exam_date` and `difficulty` (numbers, lists): the model takes text or `None`.
- `request.get_json(force=True)` failing on a body that is not JSON.
- Unicode digits: `strptime`'s `\d` also accepts non-ASCII decimal digits; the model accepts ASCII digits only.
- JavaScript `String(...)` of non-string values and of falsy non-strings such as `0`: `EscapeHtml` takes a string or `None`.
- `percent` and the rest of `static/app.js` (fetch wrappers, DOM rendering, event handlers): floating point and browser I/O.
- The secret key, cookie signing and the debug server.
- Concurrency between requests: each handler is one atomic step.
- SQLite's own limits on ids: the AUTOINCREMENT counters are unbounded, so the "database or disk is full" error at the largest rowid is not modelled, and the session user id, always an id the store handed out, is taken to fit the INTEGER range.
- JavaScript strings are sequences of UTF-16 code units and may hold lone surrogates, which a Dafny `string` cannot; `escapeHtml` passes them through unchanged, and `EscapeHtml` is stated only for strings of whole characters.
