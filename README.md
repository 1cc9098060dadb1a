# Verified model of the alx-backend-user-data authentication core

This Dafny project models the authentication logic of the alx-backend-user-data
exercises, and proves properties of that model.

- **Basic authentication** (`BasicAuth`). An `Authorization: Basic …` header
  goes through four stages, each answering `None` on bad input:
  1. keep the text after the `"Basic "` prefix, up to the next space;
  2. decode it as Base64 (section 4 of RFC 4648);
  3. read the octets as UTF-8;
  4. split the text at the first colon into email and password
     (section 2 of RFC 7617).

  The result is the first user with that email whose password validates.
- **Base authenticator** (`Auth`).
  - The path-exemption policy. Trailing slashes are stripped, membership is
    tested exactly, and an absent path or list fails closed.
  - Reading the Authorization header.
  - A current user that is always `None`.
- **Session authentication** (`Session`). A class holding a registry from
  session ids to user ids.
  - `CreateSession` inserts into it, and `DestroySession` deletes from it.
  - Lookup by session id.
  - The session cookie, whose name comes from `SESSION_NAME` with the default
    `_my_session_id`.
  - The current user found through that cookie.
- **User table** (`UserDb`). A class whose `users` field is the sequence of
  rows in insertion order, over the columns `id`, `email`, `hashed_password`,
  `session_id` and `reset_token`.
  - `AddUser` appends a row with the next free id.
  - `FindUserBy` returns the first row matching every keyword. An unknown
    keyword raises `InvalidRequestError`; no match raises `NoResultFound`.
  - `UpdateUser` checks the id first, then the keyword names, and only then
    sets fields one by one in a loop.
- **Registration** (`UserAuth`). The `Auth` class owns a `DB`. Registering an
  email that is taken raises `ValueError` and stores nothing. Otherwise one
  row is stored, holding the hash of the password's UTF-8 octets.
- **Log redaction** (`FilteredLogger`). `filter_datum` is defined twice:
  - as the regular-expression substitution, scanning left to right
    (`RegexSub`);
  - as split on the separator, redact each `name=value` segment, join again
    (`FilterDatum`).

  The two are proved equal for a separator other than '=' and field names
  that do not contain the separator. The properties are proved about the
  second.

Some conventions hold throughout:
- A dynamically typed argument (`None`, a `str`, or anything else) is
  `Common.Input`.
- A call that may raise returns `Common.Outcome`: `Returned(value)` or
  `Raised(exception)`.
- Code outside the core becomes a parameter of the member that calls it:
  - `User.search`, `User.get` and `is_valid_password`, from the models
    package;
  - bcrypt;
  - the environment;
  - the freshly generated UUID.

Base64 and UTF-8 are modelled as full codecs. Each decoder is proved to
accept exactly the encodings its encoder produces.

In two places the code cannot run as written.
- The f-string at 0x03-user_authentication_service/db.py:66-67 spans two
  lines, which is a syntax error, so the module does not load. The model
  raises the evidently intended `ValueError` there and does not model the
  message text. There is no running behaviour to set against the corrected
  one, so this is not a row under "## Findings".
- `current_user` at 0x02-Session_authentication/api/v1/auth/session_auth.py:57
  uses a name that is never imported. This one is under "## Findings".

## Model

| member | source | states |
|---|---|---|
| Auth.StripSlashes | 0x02-Session_authentication/api/v1/auth/auth.py:20-21 | the result is a prefix of the input that does not end in '/', and everything stripped is '/' |
| Auth.RequireAuth | 0x02-Session_authentication/api/v1/auth/auth.py:18-22 | true for an absent path, an absent list or an empty list; otherwise false exactly when some excluded entry equals the path once trailing slashes are stripped from both |
| Auth.RequireAuthPathSlash | 0x02-Session_authentication/api/v1/auth/auth.py:20 | appending '/' to the path never changes the decision |
| Auth.RequireAuthEntrySlash | 0x02-Session_authentication/api/v1/auth/auth.py:21 | appending '/' to any excluded entry never changes the decision |
| Auth.RequireAuthMonotonic | 0x02-Session_authentication/api/v1/auth/auth.py:21-22 | a path exempt under a non-empty list stays exempt under any list containing all its entries |
| Auth.RequireAuthAppend | 0x02-Session_authentication/api/v1/auth/auth.py:21-22 | adding an entry to a non-empty list can only turn true into false |
| Auth.RequireAuthReorder | 0x02-Session_authentication/api/v1/auth/auth.py:21-22 | lists with the same entries give the same decision, whatever their order and however often each entry is repeated |
| Auth.RequireAuthExemptExamples | 0x02-Session_authentication/api/v1/auth/auth.py:20-22 | "/a" and "/a/" are exempt under ["/a"], and "/a" is exempt under ["/a//"] |
| Auth.RequireAuthRequiredExamples | 0x02-Session_authentication/api/v1/auth/auth.py:18-22 | no path and no entries both fail closed; "/ab" is not exempt under ["/a"], because matching is not by prefix |
| Auth.AuthorizationHeader | 0x02-Session_authentication/api/v1/auth/auth.py:28-32 | present exactly when there is a request carrying the header, and then it is the header's value unchanged |
| Auth.CurrentUser | 0x02-Session_authentication/api/v1/auth/auth.py:34-38 | the base class never authenticates anyone |
| Seqs.FirstIndex | 0x01-Basic_authentication/api/v1/auth/basic_auth.py:76-79 | the index of the first element passing the test, or none exactly when no element passes |
| Seqs.IndexOf | 0x01-Basic_authentication/api/v1/auth/basic_auth.py:58-61 | the first occurrence of the character, or none exactly when it does not occur |
| Seqs.Split | 0x01-Basic_authentication/api/v1/auth/basic_auth.py:27 | at least one part, and no part contains the separator |
| Seqs.JoinSplit | 0x00-personal_data/filtered_logger.py:20-21 | joining the parts of a split restores the string |
| Seqs.SplitJoin | 0x00-personal_data/filtered_logger.py:20-21 | splitting a join of separator-free parts restores the parts |
| Base64.Encode | 0x01-Basic_authentication/api/v1/auth/basic_auth.py:41 | four characters for every group of three octets, a final partial group included |
| Base64.Decode | 0x01-Basic_authentication/api/v1/auth/basic_auth.py:41 | only a length that is a multiple of four decodes, to three octets per group less at most two for the padding |
| Base64.EncodeChars | 0x01-Basic_authentication/api/v1/auth/basic_auth.py:27 | an encoding holds only alphabet characters and '=' |
| Base64.DecodeEncode | 0x01-Basic_authentication/api/v1/auth/basic_auth.py:41 | decoding the encoding of any octets gives them back |
| Base64.EncodeDecode | 0x01-Basic_authentication/api/v1/auth/basic_auth.py:41 | whatever decodes is the encoding of what it decodes to |
| Base64.DecodeIffEncoding | 0x01-Basic_authentication/api/v1/auth/basic_auth.py:41 | a string decodes to some octets exactly when it is their encoding |
| Utf8.Encode | 0x03-user_authentication_service/auth.py:42 | one to four octets per character |
| Utf8.Decode | 0x01-Basic_authentication/api/v1/auth/basic_auth.py:42 | a decoded text has one character for every one to four octets |
| Utf8.DecodeEncode | 0x01-Basic_authentication/api/v1/auth/basic_auth.py:42 | decoding the UTF-8 of any text gives it back without error |
| Utf8.EncodeDecode | 0x01-Basic_authentication/api/v1/auth/basic_auth.py:42 | whatever decodes is the UTF-8 of what it decodes to |
| Utf8.DecodeIffEncoding | 0x01-Basic_authentication/api/v1/auth/basic_auth.py:42 | octets decode to a text exactly when they are its UTF-8 |
| BasicAuth.ExtractBase64AuthorizationHeader | 0x01-Basic_authentication/api/v1/auth/basic_auth.py:21-27 | present exactly for a string beginning with "Basic " (case-sensitive), and then it is the text after the scheme up to the next space |
| BasicAuth.ExtractBase64Exact | 0x01-Basic_authentication/api/v1/auth/basic_auth.py:27 | for "Basic " followed by a space-free payload, the payload is extracted exactly |
| BasicAuth.ExtractBase64Refuses | 0x01-Basic_authentication/api/v1/auth/basic_auth.py:21-26 | another scheme, the scheme in lower case, the bare scheme, None and a non-string are all refused |
| BasicAuth.DecodeBase64AuthorizationHeader | 0x01-Basic_authentication/api/v1/auth/basic_auth.py:36-45 | None for a non-string; for ASCII text, None exactly when it is not Base64; non-ASCII text raises ValueError; Base64 whose octets are not UTF-8 raises UnicodeDecodeError, and only then; only ValueError or UnicodeDecodeError escape |
| BasicAuth.DecodeBase64Iff | 0x01-Basic_authentication/api/v1/auth/basic_auth.py:40-43 | a payload decodes to a text exactly when it is the Base64 of that text's UTF-8 |
| BasicAuth.ExtractUserCredentials | 0x01-Basic_authentication/api/v1/auth/basic_auth.py:54-62 | both parts present exactly for a string containing ':'; the email has no colon, and email + ":" + password is the input |
| BasicAuth.ExtractUserCredentialsJoin | 0x01-Basic_authentication/api/v1/auth/basic_auth.py:60-62 | for an email without colons, "email:password" splits back into email and password, even when the password contains colons |
| BasicAuth.UserObjectFromCredentials | 0x01-Basic_authentication/api/v1/auth/basic_auth.py:69-79 | None unless both are strings; a returned user is the first, in search order, whose password validates; if some user validates, one is returned |
| BasicAuth.CurrentUser | 0x01-Basic_authentication/api/v1/auth/basic_auth.py:85-107 | the four stages composed: None without a request or header, for a header not starting with "Basic ", for a payload that is not Base64, or for a decoded text without ':'; an exception of the decoding stage propagates unchanged, and nothing else raises; otherwise the user found from the extracted email and password |
| BasicAuth.CurrentUserRejectsNonBase64 | 0x01-Basic_authentication/api/v1/auth/basic_auth.py:97-100 | the header "Basic !!!notb64" authenticates nobody and raises nothing |
| BasicAuth.CurrentUserAccepts | 0x01-Basic_authentication/api/v1/auth/basic_auth.py:85-107 | for an email without a colon, a request carrying the header built from the email and a password authenticates exactly as those credentials do |
| BasicAuth.CurrentUserSound | 0x01-Basic_authentication/api/v1/auth/basic_auth.py:85-107 | an authenticated user was found by the email the header presents, and validates the password it presents |
| Session.SessionName | 0x02-Session_authentication/api/v1/auth/session_auth.py:45 | the environment's SESSION_NAME when it is set, otherwise "_my_session_id" |
| Session.SessionCookie | 0x02-Session_authentication/api/v1/auth/session_auth.py:42-46 | present exactly when there is a request carrying the cookie named by SESSION_NAME, and then it is that cookie's value |
| Session.SessionCookieDefault | 0x02-Session_authentication/api/v1/auth/session_auth.py:45 | without SESSION_NAME the cookie "_my_session_id" is read |
| Session.SessionAuth.constructor | 0x02-Session_authentication/api/v1/auth/session_auth.py:15 | the registry starts empty |
| Session.SessionAuth.UserIdForSessionId | 0x02-Session_authentication/api/v1/auth/session_auth.py:33-36 | present exactly for a string id in the registry, and then it is the registered user id |
| Session.SessionAuth.CreateSession | 0x02-Session_authentication/api/v1/auth/session_auth.py:21-26 | a non-string user id changes nothing and gives None; a string one is registered under the new id, which is returned, and every other session is unchanged |
| Session.SessionAuth.CurrentUser | 0x02-Session_authentication/api/v1/auth/session_auth.py:52-58 | a returned user is User.get of the non-empty user id registered for the request's session cookie; without a cookie there is none |
| Session.SessionAuth.CurrentUserAsWritten | 0x02-Session_authentication/api/v1/auth/session_auth.py:52-58 | the method as written: it can only return None or raise NameError |
| Session.SessionAuth.CurrentUserOfSession | 0x02-Session_authentication/api/v1/auth/session_auth.py:54-57 | a request presenting a session registered for a non-empty user id resolves to User.get of that id, while the code as written raises NameError on it |
| Session.SessionAuth.DestroySession | 0x02-Session_authentication/api/v1/auth/session_auth.py:64-73 | true exactly when the request's cookie names a registered session; then exactly that entry is removed, otherwise nothing changes; afterwards the id is unregistered |
| Session.LoginLogout | 0x02-Session_authentication/api/v1/auth/session_auth.py:17-73 | a session opened for a user resolves to that user, is destroyed, and then resolves to nobody |
| UserDb.ColumnNamed | 0x03-user_authentication_service/db.py:64 | a name found as a column is that column's name |
| UserDb.ColumnNamedName | 0x03-user_authentication_service/db.py:64 | lookup by name is exactly the inverse of naming |
| UserDb.WithField | 0x03-user_authentication_service/db.py:71 | the named column takes the value and every other column keeps its own |
| UserDb.FirstMatch | 0x03-user_authentication_service/db.py:50 | the first row matching every keyword, or none exactly when no row does |
| UserDb.Apply | 0x03-user_authentication_service/db.py:70-71 | the setattr loop leaves every column that no keyword names as it was |
| UserDb.ApplyFields | 0x03-user_authentication_service/db.py:70-71 | with distinct keys, every named column gets its value and every other column is unchanged |
| UserDb.NextId | 0x03-user_authentication_service/db.py:40-42 | the id given to a new row is positive |
| UserDb.NextIdFresh | 0x03-user_authentication_service/db.py:40-42 | no present row holds the next id |
| UserDb.DB.constructor | 0x03-user_authentication_service/db.py:19-25 | a new database has no rows |
| UserDb.DB.AddUser | 0x03-user_authentication_service/db.py:36-43 | exactly one row is appended, holding the email, the hash, no session, no reset token and an id no earlier row has; it is returned |
| UserDb.DB.FindUserBy | 0x03-user_authentication_service/db.py:45-55 | InvalidRequestError exactly for an unknown keyword; NoResultFound exactly when no row matches; when some row matches, a row is returned, and it is the first matching one |
| UserDb.DB.UpdateUser | 0x03-user_authentication_service/db.py:57-71 | NoResultFound for an unknown id and ValueError for an unknown keyword, both leaving the table unchanged; otherwise only the row with that id is replaced, by applying the keywords |
| UserDb.UpdatedRow | 0x03-user_authentication_service/db.py:70-71 | after an update the named columns hold their values, the other columns and all other rows are unchanged |
| UserAuth.HashPassword | 0x03-user_authentication_service/auth.py:31-43 | the hash is applied to octets that decode as UTF-8 to exactly the password |
| UserAuth.EmailQueryMatches | 0x03-user_authentication_service/auth.py:26 | a row matches the email query exactly when it has that email, so the query fails exactly when the email is free |
| UserAuth.Auth.constructor | 0x03-user_authentication_service/auth.py:16-19 | the service owns a new, empty database |
| UserAuth.Auth.RegisterUser | 0x03-user_authentication_service/auth.py:21-34 | a taken email raises ValueError and stores nothing; otherwise exactly one row is appended, with the email and the hash of the password, and returned; a search by that email then finds it; unique emails stay unique |
| UserAuth.FirstIndexAppendMatch | 0x03-user_authentication_service/auth.py:32-34 | a row with a fresh email appended to the table is the first row the email query finds, and unique emails stay unique |
| UserAuth.RegisterTwice | 0x03-user_authentication_service/auth.py:25-32 | registering a free email twice: the first call succeeds and the second raises ValueError |
| FilteredLogger.Names | 0x00-personal_data/filtered_logger.py:20-21 | the alternatives are the fields, or the empty name alone when there are no fields |
| FilteredLogger.FieldAt | 0x00-personal_data/filtered_logger.py:20 | the first alternative, in the order of the fields, whose name followed by '=' starts the text; none exactly when no alternative does |
| FilteredLogger.RedactSegment | 0x00-personal_data/filtered_logger.py:20-22 | a segment that no listed name followed by '=' starts is kept; a changed segment is such a name, '=' and the redaction |
| FilteredLogger.FilterDatum | 0x00-personal_data/filtered_logger.py:15-22 | split into segments, redact each, join again; a message without '=' is returned unchanged |
| FilteredLogger.RegexSub | 0x00-personal_data/filtered_logger.py:20-22 | the substitution started at the beginning of the message; a message without '=' is returned unchanged |
| FilteredLogger.SubstituteWithoutEquals | 0x00-personal_data/filtered_logger.py:20-22 | every match of the scan `Substitute` contains '=', so the scan copies any text without '=' unchanged |
| FilteredLogger.NoEqualsUnchanged | 0x00-personal_data/filtered_logger.py:20-22 | redacting every segment of a message without '=' and joining gives the message back |
| FilteredLogger.RedactAll | 0x00-personal_data/filtered_logger.py:20-22 | one redacted segment per segment, in order |
| FilteredLogger.ValueEnd | 0x00-personal_data/filtered_logger.py:20 | the lazy value stops at the first separator after its start, or at the end |
| FilteredLogger.SubstituteSegment | 0x00-personal_data/filtered_logger.py:20-22 | at a segment start the substitution rewrites that segment as the segment-wise redaction does |
| FilteredLogger.SubstituteIsFilterDatum | 0x00-personal_data/filtered_logger.py:20-22 | for a separator other than '=' and fields without the separator, the regex substitution equals split, redact each segment, join |
| FilteredLogger.RedactSegmentByName | 0x00-personal_data/filtered_logger.py:20-22 | a segment is redacted exactly when its name is listed; the name and '=' are kept and only the value is replaced |
| FilteredLogger.RedactSegmentIdempotent | 0x00-personal_data/filtered_logger.py:20-22 | redacting a redacted segment changes nothing |
| FilteredLogger.FilterDatumSegments | 0x00-personal_data/filtered_logger.py:20-21 | the output's segments are the input's, in order and with the same count, each redacted on its own |
| FilteredLogger.FilterDatumIdempotent | 0x00-personal_data/filtered_logger.py:20-22 | filtering twice equals filtering once, when the redaction has no separator |
| FilteredLogger.FilterDatumUnchanged | 0x00-personal_data/filtered_logger.py:20-22 | a message none of whose segments names a listed field is returned unchanged |
| FilteredLogger.LeadingSpaceNotRedacted | 0x00-personal_data/filtered_logger.py:20 | matching is anchored: " email=x" is not redacted for the field "email" |
| FilteredLogger.NoFieldsRedactsBareValues | 0x00-personal_data/filtered_logger.py:20-21 | with no fields, exactly the segments beginning with '=' are redacted |
| FilteredLogger.FilterDatumTwoFields | 0x00-personal_data/filtered_logger.py:20-22 | in "name=v;password=w" with the field "password", only the password's value is replaced |

## Left out

- BasicAuth.DecodeBase64AuthorizationHeader: decodes only canonical Base64, as `Base64.Decode` defines it per section 4 of RFC 4648. Without `validate=True`, Python's `b64decode` also accepts other input. For such payloads the model answers `None` where Python may decode:
  - it discards characters outside the alphabet;
  - it ignores non-zero padding bits ("YR==");
  - it stops at the first complete padding and ignores what follows ("YQ==YQ==" gives `b"a"`);
  - it accepts excess padding ("YQ===").
- BasicAuth.CurrentUserSound: the header a user is authenticated by presents the canonical Base64 of "email:password". This holds only because the model's decoder is strict. Python's lenient decoder also authenticates some non-canonical headers: it drops the '.' in "Basic YWJj.OmRlZg==" and decodes that header to "abc:def". The model answers `None` for such a header.
- Header names are looked up exactly. Werkzeug's `request.headers`, used at auth.py:30-32 and basic_auth.py:88, is case-insensitive; the model does not capture that.
- The scheme name is compared case-sensitively, as the code does. Section 2.1 of RFC 7235 makes it case-insensitive; the model follows the code.
- `User.search`, `User.get` and `is_valid_password` become parameters. The `User` model (`models/user.py` and `0x03-user_authentication_service/user.py`) is not part of this model.
- The five columns of `users` (`id`, `email`, `hashed_password`, `session_id`, `reset_token`) and their `NULL` defaults are assumptions, because user.py is not part of this model. `session_id` and `reset_token` start as `Null`.
- Database constraints are not modelled: a unique `email` column and a primary-key `id` column are not enforced by the table. Only the check in `register_user` keeps emails unique.
- SQLAlchemy machinery is not modelled:
  - the engine, `drop_all` and `create_all`;
  - session memoisation;
  - `commit` and `rollback`, and the errors a commit can raise, such as constraint violations on an updated `id` or `email`.
- Rows are values. In the source, the `User` object that `add_user` and `find_user_by` return (db.py:43, 53) is the same ORM object that `update_user` later changes in place (db.py:71). The model returns a copy of the row, so it does not capture that sharing: a row obtained earlier does not see a later update.
- Column values are compared by plain equality. SQLite's type affinity and coercion are not modelled.
- Rows come back from `.first()` in insertion order, which is what the model uses. The query itself sets no order.
- UserDb.NextId: when every integer id present is zero or negative, which only `update_user(id=...)` can bring about, SQLite would give the largest id plus one (after -5 comes -4). The model gives 1 instead.
- UserAuth.Auth.RegisterUser: `email` and `password` are strings. app.py passes `request.form.get(...)`, which can be `None`; the source then fails in `None.encode('utf-8')` (auth.py:42) or stores a NULL email. The model cannot express that call.
- bcrypt is not modelled. `_hash_password` in both files becomes the `hash` parameter applied to the password's UTF-8 octets, so salting is not modelled. `0x00-personal_data/encrypt_password.py` is left out.
- Session.SessionAuth.CreateSession: `uuid.uuid4()` becomes the `sessionId` argument. The model makes no freshness assumption, so an existing id would be overwritten, as the dictionary assignment does.
- `user_id_by_session_id` is a class attribute shared by all instances. The model holds it as one object's field, and there is no concurrency.
- FilteredLogger.FilterDatum: the separator is one character.
  - The general regular-expression semantics are not modelled: multi-character separators, regex metacharacters in the separator or the fields, and newlines in the message (where `.` stops and `$` also matches before a final newline).
  - The equivalence with the regex scan is proved for a separator other than '=' and field names without the separator. With separator '=' the two differ: for the message "a=x" and the field "a", the regex gives "a=" followed by the redaction, while `FilterDatum` keeps "a=x".
  - Idempotence also needs field names without '='.
- `RedactingFormatter`, `get_logger`, `get_db` and `main` in filtered_logger.py are left out: they are logging-framework and MySQL I/O.
- The HTTP layer is left out: 0x03-user_authentication_service/app.py and 0x02-Session_authentication/api/v1/views/session_auth.py are Flask routing and status codes.
- The integration script 0x03-user_authentication_service/main.py is left out.
- The login, session, logout and password-reset operations that app.py calls are left out. `valid_login`, `get_user_from_session_id`, `get_reset_password_token` and `update_password` do not exist in 0x03-user_authentication_service/auth.py, so there is no code to model.

## Findings

| source | as written | input that shows it | evidently intended | confidence | as-written member | corrected member |
|---|---|---|---|---|---|---|
| 0x02-Session_authentication/api/v1/auth/session_auth.py:57 | `current_user` calls `User.get`, but the module never imports `User` (lines 6-8), so the call raises `NameError` | a request whose session cookie names a session registered for a non-empty user id | return `User.get(user_id)` with `User` imported from the models package | high; not executed | Session.SessionAuth.CurrentUserAsWritten | Session.SessionAuth.CurrentUser |
