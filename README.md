# open_trs core in Dafny

This project models the request handlers at the heart of open_trs, a small
time-reporting service, and proves properties of them. The service keeps users,
their projects and the hours they charge to projects on given days:

- `GET /charges/` (`get_charges`) returns the caller's charges. With a
  `date_range` it keeps only the days inside that inclusive range, after
  checking the range. Rows are ordered by date and then id, and each date is
  written back as `YYYY-MM-DD` text.
- `GET /projects/` (`get_projects`) returns the caller's projects, ordered by id.
- `POST /auth/register` (`register`) checks a username, an email (against
  `EMAIL_REGEX`) and a password, then inserts the user into a table whose
  usernames and emails are unique.
- `POST /auth/login` (`login`) looks the user up, checks the password and builds
  the JWT claims `iat`, `exp` and `sub`.
- `login_required` takes the token from the `Authorization` header, decodes it,
  maps each decoding failure to its message and passes the token's `sub` to the
  view as the caller's id.

Modules:

- `Common`: `Option`, `Result` and the `(message, status)` error of `InvalidUsage`.
- `Sorting`: the meaning of `SELECT … WHERE … ORDER BY …` over in-memory rows.
  `Filter` is the WHERE clause. `SortBy`, an insertion sort on integer keys
  compared lexicographically, is the ORDER BY; it is proved to be a sorting
  permutation, and the only one when the keys are distinct.
- `Dates`: `datetime.date` validity, the strict `date.fromisoformat` reader and
  `str(date)`. Both round trips are proved. So is the fact that the text order
  of renderings, the order SQLite compares stored dates in, is the date order.
- `Charges`, `Projects`, `Auth`: the handlers.

Database tables are sequences of row datatypes. The Users table, which
`register` changes, is the `seq<User>` field of a class, `Auth.UserTable`. Its
`Register` method preserves the uniqueness invariant and is proved equal to the
pure `Registration` function, which the lemmas are stated about. The loop that
renders each charge's date in place works on an array (`Charges.RenderRows`).

The collaborators the handlers call are parameters:

- the password hash (`hash`) and the password check (`checkPassword`);
- the JWT encoder (`encode`) and decoder (`decode`);
- the clock (`clock`, the value of `time.time()`) and the `JWT_EXPIRATION` setting;
- the view that `login_required` wraps.

## Model

| member | source | states |
|---|---|---|
| Sorting.Filter | open_trs/charges.py:52-57 | the WHERE clause keeps each row that satisfies the condition with its full multiplicity and drops every other row |
| Sorting.SortBy | open_trs/charges.py:52-56 | ORDER BY returns a permutation of its input (same multiset) |
| Sorting.SortBySorted | open_trs/charges.py:52-56 | the ORDER BY result is non-decreasing in the lexicographic key |
| Sorting.SortByStrict | open_trs/charges.py:52-56 | rows that are pairwise distinct and told apart by their keys come out strictly ascending |
| Sorting.StrictlySortedUnique | open_trs/charges.py:52-56 | two strictly ascending arrangements of the same rows are equal, so the ORDER BY result is fully determined |
| Sorting.UniqueByNoDuplicates | open_trs/charges.py:52-56 | a table whose ids differ at every position holds no row twice |
| Sorting.LexLeTransitive | open_trs/charges.py:52 | the column-by-column comparison of ORDER BY is transitive (with LexLeTotal, LexLeReflexive and LexLeAntisymmetric it is a total order) |
| Dates.Parse | open_trs/charges.py:41-42 | whatever `date.fromisoformat` accepts is a real calendar date: year 1 to 9999, month 1 to 12, day within the month under the Gregorian leap rule |
| Dates.Render | open_trs/charges.py:62 | `str(d)` is ten characters long; with ParseExactlyRenderings and RenderLayout, it is the `YYYY-MM-DD` text that the reader maps back to `d` |
| Dates.ParseRender | open_trs/charges.py:61-62 | `str(d)` of a valid date reads back as `d` under the reader of lines 41-42 |
| Dates.RenderParse | open_trs/charges.py:41-42 | any string the reader accepts is exactly the `str` of the date it returns: the reader takes the strict `YYYY-MM-DD` form and nothing else |
| Dates.ParseExactlyRenderings | open_trs/charges.py:41-42 | the reader returns `d` for `s` if and only if `d` is valid and `s` is its rendering |
| Dates.TextOrderIsDateOrder | open_trs/charges.py:55-56 | for valid dates, comparing the stored `YYYY-MM-DD` texts character by character (BETWEEN and ORDER BY on the column) agrees with comparing the dates |
| Dates.DigitsOrder | open_trs/charges.py:55-56 | zero-padded fixed-width numerals compare as text the way their numbers compare |
| Dates.CodesInjective | open_trs/charges.py:55-56 | two texts with the same character codes are the same text, so text comparison ties only on equal texts |
| Charges.ValidateRange | open_trs/charges.py:31-47 | no range gives no bounds. A range without `start` fails with "Start date required" whatever `end` is. A range with `start` and no `end` fails with "End date required". An unparsable start or end fails with "Invalid date format, use YYYY-MM-DD". `start > end` fails with "End date must be after start date". Otherwise the parsed bounds are returned. Every failure has status 400 |
| Charges.AcceptedRanges | open_trs/charges.py:35-47 | a range is accepted with bounds `(a, b)` if and only if its ends are the renderings of valid dates `a` and `b` with `a <= b` |
| Charges.SingleDayRangeAccepted | open_trs/charges.py:46-47 | a range whose start equals its end is accepted |
| Charges.Query | open_trs/charges.py:51-57 | the result holds each stored row that belongs to the caller and, with bounds, lies inclusively between them, with its multiplicity, and no other row; it is ordered by `(date_charged, id)` |
| Charges.QueryMembership | open_trs/charges.py:51-57 | a row is returned if and only if it is stored and selected |
| Charges.QueryStrictlyOrdered | open_trs/charges.py:52-56 | with `id` a key, the result is strictly ascending in `(date_charged, id)` |
| Charges.QueryDetermined | open_trs/charges.py:52-56 | with `id` a key, every strictly ordered arrangement of the selected rows is the query's result |
| Charges.RangeWithinCallerCharges | open_trs/charges.py:51-57 | a range never returns a row, or more rows, than the caller's unrestricted listing |
| Charges.ResponseReadsBack | open_trs/charges.py:59-62 | each response row keeps every field of the stored row, and its `date_charged` text parses back to the stored date |
| Charges.Response | open_trs/charges.py:59-62 | the response has one row per fetched charge, in the same order, with the same id and its date as text (ResponseReadsBack gives the other fields and the read-back) |
| Charges.SelectedAsText | open_trs/charges.py:55-57 | for real dates, selecting inclusively between the bounds as dates is the same as SQLite's BETWEEN on the stored text against the bounds' `YYYY-MM-DD` text |
| Charges.RangeSelectsAsText | open_trs/charges.py:40-57 | over a table of real dates, an accepted range selects exactly the caller's rows whose stored text lies between the start and end strings sent in the request |
| Charges.ChargeOrderAsText | open_trs/charges.py:52-56 | for real dates, the model's `(date, id)` order is SQLite's order on the stored date text and then the id |
| Charges.QuerySortedAsText | open_trs/charges.py:52-56 | over a table of real dates, the query result is in SQLite's `ORDER BY date_charged, id` order on the stored text |
| Charges.RenderRows | open_trs/charges.py:59-62 | the loop over the copied row dictionaries leaves each row with its date rendered as text and all other fields as stored |
| Charges.GetCharges | open_trs/charges.py:12-64 | a rejected range gives that range's error and nothing else; otherwise the reply is the rendered result of the query for the caller and the checked bounds. The handler changes no table |
| Projects.GetProjects | open_trs/projects.py:20-25 | every returned project is owned by the caller, every project the caller owns is returned, each returned record equals a stored row with its multiplicity, and ids do not decrease |
| Projects.GetProjectsStrictlyAscending | open_trs/projects.py:22-23 | with `id` the primary key, the listing is strictly ascending by id |
| Projects.ProjectKeyOrder | open_trs/projects.py:22 | `ORDER BY id` compares projects by id |
| Auth.MatchesCore | open_trs/auth.py:12 | the pattern without the trailing-newline case: an accepted string has at least six characters and ends in a letter; MatchesCoreIsShape gives its exact meaning |
| Auth.IsValidEmail | open_trs/auth.py:86 | `EMAIL_REGEX.match(email)` is truthy: an accepted address has at least six characters; EmailRegexMeaning and ValidEmailHasOneAt give its exact meaning |
| Auth.ShapeSplitIsUnique | open_trs/auth.py:12 | a string matching the pattern can be split in only one way: at its first `@` and its last `.` |
| Auth.MatchesCoreIsShape | open_trs/auth.py:12 | the executable matcher accepts a string if and only if it is a non-empty local part over `[a-zA-Z0-9._%+-]`, `@`, a non-empty domain over `[a-zA-Z0-9.-]`, `.` and two or more letters |
| Auth.EmailRegexMeaning | open_trs/auth.py:12 | `EMAIL_REGEX.match` accepts exactly the strings of that shape, and those strings followed by one newline (Python's `$`) |
| Auth.ShapeHasOneAt | open_trs/auth.py:12 | a string of the shape contains exactly one `@` |
| Auth.ValidEmailHasOneAt | open_trs/auth.py:86 | every address that passes the check contains exactly one `@` |
| Auth.SampleEmailAccepted | open_trs/auth.py:86 | `test@test.com` passes the check |
| Auth.ValidateRegistration | open_trs/auth.py:82-89 | the checks run in the order username, email present, email pattern, password; each message is returned exactly when its check is the first to fail, and none is returned exactly when all pass |
| Auth.NextId | open_trs/auth.py:94-96 | the id of the inserted row is larger than every id in use, at least 1, and either 1 or one more than an id in use |
| Auth.Registration | open_trs/auth.py:60-101 | `register` as a function of the table before the request: it succeeds exactly when every check passes and neither the username nor the email is taken, and it keeps every earlier row and adds a row only on success |
| Auth.RegistrationEffect | open_trs/auth.py:91-101 | any refusal leaves the Users table unchanged. A success replies "User registered successfully." with status 201, keeps every earlier row in place and appends exactly one row with the given username, the given email and the hashed password |
| Auth.RegistrationOutcome | open_trs/auth.py:82-99 | a validation failure decides the reply; otherwise the request fails with `Either user "…" or email "…" is already registered.` exactly when the username or the email is already taken |
| Auth.RegistrationKeepsUnique | open_trs/auth.py:94-96 | registration preserves unique ids, unique usernames and unique emails |
| Auth.ExistingUserRefused | open_trs/auth.py:93-99 | registering `test` / `test@test.com` when `test` exists is refused with the "already registered" message and leaves the table as it was |
| Auth.UserTable.constructor | open_trs/db.py:38-46 | an empty Users table satisfies the uniqueness invariant |
| Auth.UserTable.Register | open_trs/auth.py:60-101 | the method keeps the invariant, and its reply and the new table are those of `Registration` on the old table |
| Auth.FindUser | open_trs/auth.py:121-122 | a found row is stored and carries the username; no row is found exactly when no stored row has it (a missing username matches nothing) |
| Auth.TruncateToInt | open_trs/auth.py:129 | `int()` of the clock truncates toward zero |
| Auth.Login | open_trs/auth.py:116-135 | "Incorrect username" exactly when no user has the name. "Incorrect password" exactly when the user is found and the password check fails. Success exactly when the user is found and the check passes. On success the password check passed, `iat` is the truncated clock, `exp = iat + JWT_EXPIRATION`, `sub` is the matched user's id, and the token is the encoding of exactly those claims |
| Auth.LoginNamesTheUser | open_trs/auth.py:121-132 | with unique usernames, the login of a registered username succeeds exactly when that user's password check passes. The claims then name that user and last `JWT_EXPIRATION` seconds; otherwise the error is "Incorrect password" |
| Auth.SplitOn | open_trs/auth.py:37 | `split(' ')` yields at least one field and no field contains a space |
| Auth.JoinSplit | open_trs/auth.py:37 | joining the fields of `split(' ')` with spaces gives back the header, so splitting loses nothing |
| Auth.SplitJoin | open_trs/auth.py:37 | splitting a space-join of space-free fields gives back those fields |
| Auth.SplitHasSecondField | open_trs/auth.py:37 | `split(' ')` has a second field exactly when the header contains a space |
| Auth.ExtractToken | open_trs/auth.py:37 | `request.headers['Authorization'].split(' ')[1]`: no header exactly when the name is absent, and a found token contains no space; TokenIsSecondField places it in the header |
| Auth.TokenIsSecondField | open_trs/auth.py:36-39 | a missing header is reported as missing, a header without a space has no second field, and otherwise the token is the space-free word right after the first space |
| Auth.LoginRequired | open_trs/auth.py:34-55 | a missing header gives "Missing token". A header without a space raises IndexError. A bad signature gives "Token signature verification failed", an expired token "Expired token" and any other decode error "Unable to decode token". Other invalid tokens propagate uncaught. A decoded payload without `sub` raises KeyError; one with `sub` runs the view with that id |
| Auth.ViewOnlyOnDecodedToken | open_trs/auth.py:41-55 | the view runs exactly when a token was found and decoded with a `sub`; every rejection has status 400 |
| Auth.DecodeFailuresDistinct | open_trs/auth.py:46-51 | the three caught decoding failures have three different messages, all with status 400 |
| Auth.LoginTokenAdmits | open_trs/auth.py:53-55 | a header `<scheme> <token>` carrying a token that decodes to the claims `login` built runs the view with the claims' `sub` |

## Left out

- Database plumbing (`open_trs/db.py`): the connection cache, teardown and `init_db`. Tables are values handed to the handlers. The row conversion is taken as given: `detect_types=sqlite3.PARSE_DECLTYPES` (open_trs/db.py:17-18) turns `date_charged` into a date.
- The schema file is not part of this model. The constraints the handlers rely on are modelled as stated for the service: `id` a key, `username` and `email` unique in Users.
- Auth.NextId: the new row's id is one more than the largest id in use, or 1 when no id is positive. This agrees with SQLite's choice for a table whose ids are the positive ones SQLite itself assigned and whose users are never deleted. It differs for a table holding only non-positive ids.
- Charges.Query: filters and sorts on the dates of the rows, while SQLite compares the stored TEXT of `date_charged` with the bounds' `YYYY-MM-DD` text. The two agree when every stored value is the canonical rendering of a real date, which `ValidTable` states and `RangeSelectsAsText` and `QuerySortedAsText` rely on. A stored non-canonical text such as `2024-2-1` is not modelled: it would read back as a date but compare differently as text.
- App wiring (`open_trs/__init__.py`, `open_trs/server.py`, `open_trs/configs.py`), blueprint registration and the `InvalidUsage` JSON envelope. Errors are `(message, status)` values, and the success statuses (200 for the listings and login) are not modelled.
- Password hashing and checking (werkzeug), JWT encoding, signature and expiry checking (PyJWT) and `time.time()`: these are parameters. The decoder's five outcomes follow PyJWT's exception classes. `InvalidSignatureError` is caught before the `DecodeError` it derives from. An `InvalidTokenError` of any other kind, such as an immature `iat`, propagates uncaught.
- Auth.Login: the `expiration` parameter assumes the `JWT_EXPIRATION` setting exists. The shown configurations define none, in which case `login` raises KeyError after a passing password check.
- Auth.LoginRequired: a decoded payload is a map to integers, so a token whose `sub` is not an integer cannot be represented. Releases of PyJWT that check `sub` to be a string would reject the tokens `login` signs (integer `sub`). `LoginTokenAdmits` assumes a decoder that accepts them.
- Auth.Login: what the password check does with a missing password is left to `checkPassword`; werkzeug itself raises on `None`.
- Charge create, update and delete: no implementation of them exists in the source, so none is modelled.
- JSON members of a type other than string, which make `fromisoformat`, the regular expression or the hash raise TypeError. A body that is not JSON or not an object is also left out. So is a `date_range` that is present but not an object (a string, a list, `false`), whose `.get` raises AttributeError. Every member is a string or missing; JSON `null` counts as missing.
- Case-insensitive header names: the headers are a map keyed by the exact name `Authorization`.
- The `created` timestamps and the `category`/`description` columns are opaque values copied through unchanged.
- Dates.Parse: models the strict `YYYY-MM-DD` form that `date.fromisoformat` accepts before Python 3.11. Later versions also accept other ISO 8601 forms, such as basic format and week dates.
- Serialisation of the HTTP response. `Charges.Response` stops at the row dictionaries after the in-place rendering; `jsonify` is not modelled.
- Concurrency and transactions: each handler is modelled as one atomic step over the tables.
