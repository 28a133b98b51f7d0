# Token authentication and user registration of the Tornado/MongoDB backend

This project is a Dafny model of the sequential core of a small REST backend
built on Tornado and MongoDB. It covers five pieces:

- **Bearer-token gate** (`token_auth`). It reads the `Authorization` header and
  looks the token up in the `auths` collection. It either refuses the request
  with the first failing check's message, or calls the handler once with
  `_user_id` set to the owner of the token.
- **Token builder** (`gen_token`). It concatenates the base64 encodings
  (section 4 of RFC 4648) of the canonical texts (section 3 of RFC 4122) of
  freshly drawn UUIDs.
- **Issuance** (`AuthAPI.get`). This is a get-or-create on `auths` keyed by
  `(consumer_id, user_id)`. A new record gets a 1-day access expiry and a
  90-day end date.
- **Registration** (`UserAPI.post`) and **lookup** (`UserAPI.get`). Registration
  is an ordered chain of guards (required email, email pattern, lengths,
  duplicate email) followed by one insert into `users`. The lookup returns the
  caller's `name`.
- **`_id` to `id` renaming** (`Handler.jsonify`, `Handler.jsonify_list`). This
  is done in place on each document before serialisation.

Collections are in-memory tables: `AuthStore.AuthTable` and
`Users.UserTable`, each a class with a `seq` of records in insertion order.
MongoDB does not promise any natural order, so the model assumes that
`find_one` scans in insertion order. Several things become parameters:

- the clock, as an integer count of microseconds (the resolution of `datetime`);
  dates read back from `auths` hold whole milliseconds, because a BSON UTC
  datetime is a count of milliseconds and the driver drops the rest on insert;
- the UUIDs that `uuid4()` would draw, as 128-bit naturals;
- the id the database assigns to a new user;
- the password digest function.

Each state-changing method is tied to a pure function of the old state
(`Issue`, `Register`, `Renamed`), and the `gen_token` loop to the function
`TokenOf` of its draws. The lemmas are stated about those functions.

Modules: `Wrappers` (Option, Result), `Base64`, `UuidText`, `Tokens`,
`AuthStore`, `TokenGate`, `Users`, `Rest`, `Scenarios` (properties of the
endpoints used together).

Behaviour worth noting:

- 'API requires bearer authorization' and 'Token is empty' are separate
  messages, and neither passes a status.
- `expires_in` truncates toward zero (Python `int`), which is not a floor for
  negative differences.
- An expired record of the pair is reused, tokens and all.
- Only the `Bearer` scheme exists in `token_auth`.
- The response to the call that creates a record is computed from the record
  as built, with microsecond dates. Later calls read the stored record back,
  with millisecond dates. With the single clock reading the model assumes (see
  "Left out"), asked again at the same instant, the second response can report
  one second less. A token can already be refused at exactly one day after issue.

## Model

| member | source | states |
|---|---|---|
| `Base64.Encode` | app/rest/tools.py:57 | `b64encode` of the bytes: empty exactly for empty input, and otherwise it begins with the 4 characters of the first group (three bytes, or the padded last one or two) |
| `Base64.EncodeLength` | app/rest/tools.py:57 | base64 output has 4 characters for every started 3-byte group of input |
| `Base64.EncodeAlphabet` | app/rest/tools.py:57 | every output character is in the RFC 4648 alphabet or is '='; an input whose length is a multiple of 3 gets no padding |
| `Base64.EncodeWholeGroups` | app/rest/tools.py:57 | input made of whole 3-byte groups encodes to exactly 4/3 as many alphabet characters |
| `Base64.DecodeEncode` | app/rest/tools.py:57 | decoding recovers every byte string from its encoding, padded or not |
| `Base64.EncodeInjective` | app/rest/tools.py:57 | different byte strings have different encodings |
| `UuidText.UuidWidth` | app/rest/tools.py:57 | 32 hexadecimal digits span exactly the 128 bits of a UUID |
| `UuidText.Text` | app/rest/tools.py:57 | `str(uuid)` is 36 characters, with hyphens at positions 8, 13, 18 and 23 and lower-case hex digits everywhere else |
| `UuidText.TextInjective` | app/rest/tools.py:57 | distinct UUIDs have distinct texts |
| `UuidText.AsciiBytes` | app/rest/tools.py:57 | `bytes(s, 'utf8')` of ASCII text has one byte per character, equal to its code point |
| `UuidText.AsciiBytesInjective` | app/rest/tools.py:57 | different ASCII texts have different UTF-8 bytes |
| `UuidText.TextBytes` | app/rest/tools.py:57 | `bytes(str(uuid), 'utf8')` is 36 bytes |
| `UuidText.TextBytesInjective` | app/rest/tools.py:57 | distinct UUIDs have distinct UTF-8 texts |
| `Tokens.Chunk` | app/rest/tools.py:57 | the encoding of one UUID's text is 48 base64-alphabet characters, with no '=' |
| `Tokens.ChunkInjective` | app/rest/tools.py:57 | distinct UUIDs give distinct chunks |
| `Tokens.TokenOf` | app/rest/tools.py:55-58 | a token from n UUIDs has 48·n characters; with no UUIDs it is the empty string the loop starts from |
| `Tokens.TokenChunkAt` | app/rest/tools.py:56-57 | the k-th 48-character slice of the token is the chunk of the k-th UUID, in loop order |
| `Tokens.TokenAlphabet` | app/rest/tools.py:55-58 | every token character is in the base64 alphabet |
| `Tokens.TokenInjective` | app/rest/tools.py:55-58 | different UUID draws give different tokens |
| `Tokens.GenToken` | app/rest/tools.py:51-58 | the loop returns the chunks concatenated in draw order: 48·n alphabet characters |
| `AuthStore.FindByPair` | app/rest/auth_api.py:30 | gives the first record with the pair, or None exactly when no record has it |
| `AuthStore.FindByToken` | app/rest/tools.py:84 | gives the first record holding the access token, or None exactly when no record holds it |
| `AuthStore.ExpiresIn` | app/rest/auth_api.py:41 | whole seconds from now to the expiry date, truncated toward zero, so a negative difference gives zero or less |
| `AuthStore.NewRecord` | app/rest/auth_api.py:32-38 | the record built for a pair without one carries the pair, a 48-character access token, a 96-character refresh token, an expiry exactly 86400 s after now and an end exactly 7776000 s after now |
| `AuthStore.StoredInstant` | app/rest/auth_api.py:39 | a stored date is the largest whole-millisecond instant not after the date given |
| `AuthStore.Stored` | app/rest/auth_api.py:39 | the inserted record keeps its ids and tokens; each date loses less than a millisecond and lands on a whole millisecond |
| `AuthStore.GrantOf` | app/rest/auth_api.py:41-47 | the response carries the record's tokens; `expires_in` is not negative while the token is live, not positive once it has expired, and positive only with a whole second left |
| `AuthStore.Issue` | app/rest/auth_api.py:30-47 | only appends. A pair that has a record keeps the table and gets that record's response. A pair without one gets exactly the stored form of `NewRecord`: `gen_token()` and `gen_token(2)` of the draws, the expiry and end cut to whole milliseconds, and the response `expires_in` 86400. Afterwards the pair's record carries the reported tokens, and reading it back reports at most one second less |
| `AuthStore.IssueIdempotent` | app/rest/auth_api.py:30-31 | a second call for the same pair does not change the table and returns the same tokens whatever UUIDs it draws; if the record already existed before the first call, an unchanged clock gives an identical response |
| `AuthStore.ReissueReadsStoredExpiry` | app/rest/auth_api.py:37-41 | right after creation, asking again at the same instant reports 86400 s only when the clock stood on a whole millisecond, 86399 s otherwise |
| `AuthStore.StoredExpiryReadBack` | app/rest/auth_api.py:37-41 | a day-long expiry cut to whole milliseconds, read at the instant it was set, leaves 86400 s on a millisecond boundary and 86399 s otherwise |
| `AuthStore.RemovePair` | tests/auth_api_tests.py:97-98 | the deletion keeps exactly the records that do not belong to the pair |
| `AuthStore.IssueAfterRemove` | app/rest/auth_api.py:30-39 | once the pair's records are removed, the next call appends exactly the stored form of the new record |
| `AuthStore.ReuseOfExpired` | app/rest/auth_api.py:30-41 | an expired record is still reused, with its tokens, and its `expires_in` is at most 0, and negative after a whole second |
| `AuthStore.NewRecordTokensDiffer` | app/rest/auth_api.py:35-36 | records minted from different UUID draws carry different access tokens and different refresh tokens |
| `AuthStore.IssueKeepsPairsUnique` | app/rest/auth_api.py:30-39 | issuance preserves "at most one record per (consumer, user) pair" |
| `AuthStore.IssueKeepsDatesOrdered` | app/rest/auth_api.py:13-39 | issuance preserves "every expiry date precedes its end date" |
| `AuthStore.AuthTable.Get` | app/rest/auth_api.py:22-47 | builds the record field by field with two `gen_token` calls and inserts its stored form; the new table and the response are those of `Issue` |
| `TokenGate.Message` | app/rest/tools.py:75-88 | each failure raises its own message, and no two failures share one |
| `TokenGate.Status` | app/rest/tools.py:75-88 | 401 is passed exactly for 'Not authorized', 'Invalid token' and 'Token expired'; the other two pass no status |
| `TokenGate.TokenPart` | app/rest/tools.py:80 | the token is the rest of the header after `Bearer `, untrimmed |
| `TokenGate.Authenticate` | app/rest/tools.py:73-90 | 'Not authorized' exactly for an absent or empty header; 'API requires bearer authorization' exactly when the header does not start with the case-sensitive `Bearer `; 'Token is empty' exactly for `Bearer ` alone; 'Invalid token' exactly when no record holds the token; 'Token expired' exactly when the first holder's expiry is strictly before now; otherwise the first holder's user id |
| `TokenGate.HeaderChecksFirst` | app/rest/tools.py:73-82 | a missing, non-bearer or empty-token header fails, and fails the same way whatever the table and the clock |
| `TokenGate.FirstHolderAuthenticates` | app/rest/tools.py:84-90 | the first holder of a non-empty token lets its user in up to and including its expiry instant, and is refused as expired after it |
| `TokenGate.TokenAuth` | app/rest/tools.py:65-91 | on success the handler is called exactly once, with `_user_id` set to the resolved user; on any failure it is never called; the table is not written |
| `Users.Message` | app/rest/user_api.py:24-50 | each failure has its own message; the invalid-email and duplicate-email messages echo the address |
| `Users.Status` | app/rest/user_api.py:24-50 | 400 is passed exactly for a duplicate email and 404 exactly for a missing user; the others pass no status |
| `Users.Code` | app/rest/user_api.py:42 | the application code 100 is given exactly for a duplicate email |
| `Users.EmailTaken` | app/rest/user_api.py:41 | the lookup by email finds a document exactly when some stored user has that address |
| `Users.PasswordOf` | app/rest/user_api.py:44 | the body's password, or '' when the key is absent |
| `Users.NameOf` | app/rest/user_api.py:48 | None exactly when the body has no name, and otherwise the body's name |
| `Users.MatchesEmailPattern` | app/rest/user_api.py:37 | `re.match` succeeds exactly when some prefix is a non-empty '@'-free run, '@', a non-empty '@'-free run, '.', and a non-empty '@'-free run; such an address has at least 5 characters, an '@' and a '.' |
| `Users.EmailPatternSound` | app/rest/user_api.py:37 | the direct check (non-empty part before the first '@', a '.' with a character on each side inside the '@'-free segment after it) implies the regex matches |
| `Users.EmailPatternComplete` | app/rest/user_api.py:37 | every string that `re.match` accepts passes the direct check |
| `Users.EmailPatternIff` | app/rest/user_api.py:37 | the direct check and the start-anchored regex agree, in both directions |
| `Users.RejectsEmptyTopLevel` | tests/user_api_tests.py:67 | 'brooth@gmail.' does not match |
| `Users.RejectsEmptyLocalPart` | tests/user_api_tests.py:79 | '@gmail.com' does not match |
| `Users.RejectsMissingAt` | tests/user_api_tests.py:91 | 'brooth.gmail.com' does not match |
| `Users.RejectsDotOnlyBeforeAt` | tests/user_api_tests.py:103 | 'brooth.gmail@com' does not match |
| `Users.AcceptedEmails` | app/rest/user_api.py:37 | 'brooth@gmail.com' and 'b@gmail.co' match, and so does 'a@b.c@', because text after the match is ignored |
| `Users.Validate` | app/rest/user_api.py:33-50 | the guards in source order, each error exactly when every earlier guard passed and its own fails. The length check comes only after the pattern, and the duplicate check before the password and the name. The name check is skipped for an absent or empty name. Success yields the email, the possibly-absent name and the password, defaulting to '' |
| `Users.Register` | app/rest/user_api.py:52-57 | a failure leaves the table unchanged and reports the guard's error; success appends exactly one user holding the digest of the password and answers with its id |
| `Users.RegisterKeepsEmailsUnique` | app/rest/user_api.py:41-56 | registration preserves "no two users share an email" |
| `Users.RegisterKeepsAdmissible` | app/rest/user_api.py:37-56 | every stored user's email matches the pattern and is at most 120 characters, and its name, if any, is at most 120 characters |
| `Users.RegisterSameEmailTwice` | app/rest/user_api.py:41-42 | registering an already-stored email fails with 'Email … already exists', code 100, and leaves the table unchanged |
| `Users.TooLongEmailExample` | tests/user_api_tests.py:115-126 | the 134-character address passes the pattern and fails as 'Too long email' |
| `Users.TooLongPasswordExample` | tests/user_api_tests.py:128-140 | a 21-character password fails as 'Too long password' |
| `Users.TooLongNameExample` | tests/user_api_tests.py:142-153 | a 121-character name fails as 'Too long name' |
| `Users.GetName` | app/rest/user_api.py:22-25 | 'User not found' exactly when no user has the id; otherwise only the `name` of the first user with it |
| `Users.UserTable.Post` | app/rest/user_api.py:28-57 | the new table and the response are those of `Register` |
| `Rest.Text` | app/rest/rest.py:12 | `str()` of the popped value: an ObjectId's hexadecimal text, a string itself, null as `None` |
| `Rest.Renamed` | app/rest/rest.py:11-12 | no `_id` remains. If `_id` was present, `id` is the text of its value, overwriting any earlier `id`. If absent, the document is unchanged. Every other key keeps its value and no key is added |
| `Rest.Document.Jsonify` | app/rest/rest.py:10-13 | the document's fields become `Renamed` of the old fields, in place |
| `Rest.JsonifyList` | app/rest/rest.py:15-21 | returns the documents in input order, each renamed in place as `jsonify` renames it |
| `Scenarios.IssuedTokenAuthenticates` | app/rest/tools.py:84-90 | a freshly issued access token held by no earlier record lets its user in up to and including its stored expiry (`now + 1 day` cut to whole milliseconds), and is refused as expired after it |
| `Scenarios.ExpiredAtFullDay` | app/rest/tools.py:87-88 | issued off a millisecond boundary, the token is already refused as expired at exactly `now + 1 day` |
| `Scenarios.RenewalGivesNewToken` | tests/auth_api_tests.py:95-108 | reissuing after the pair's record is removed, with different UUIDs drawn, hands out a different access token and a different refresh token |

## Left out

- MongoDB/motor I/O, the Tornado request plumbing, `rest.init`, `MainHandler`, `req_json` and the writing of responses. Collections are in-memory sequences and handlers return values.
- JSON serialisation (`json.dumps` with sorted keys) is library behaviour. Because keys are sorted on output, a document is a `map` and key order is not modelled.
- `password_hash` is SHA-224 (FIPS 180-4). It is an opaque function parameter `digest`.
- `uuid4()` randomness and `datetime.utcnow()` are inputs. The model does not claim that fresh UUIDs differ from old ones, which is a randomness assumption. `NewRecordTokensDiffer` and `RenewalGivesNewToken` take distinct draws as a hypothesis.
- `AuthStore.AuthTable.Get` reads the clock once. The source reads it separately for the expiry date, the end date and `expires_in` (app/rest/auth_api.py:37, 38 and 41), and awaits the insert between the first and the last read. Once any time passes between those reads, and less than a second, `int(...total_seconds())` gives 86399. So the creating response is in practice 86399, not the 86400 that `AuthStore.Issue` and `AuthStore.ReissueReadsStoredExpiry` report for the single reading.
- `AuthStore.ExpiresIn` works on exact integer microseconds; the rounding of the float `total_seconds()` is not modelled.
- `Tokens.GenToken`: the `complexity` argument is the number of UUIDs supplied. A negative complexity, which makes the source's loop run zero times, is not modelled.
- `ObjectId(user_id)` conversion in `AuthAPI.get`: ids are opaque strings and the user id arrives already converted. A malformed id, which raises in the source, is not modelled.
- `auth_required(secret=..., barier=...)` is imported by app/rest/auth_api.py and app/rest/user_api.py but not defined in app/rest/tools.py. The consumer id and the user id it would supply are plain inputs, and the `Secret` credential scheme is not part of this model.
- `ErrorResponse` and `error_response` are not defined in the files modelled. Errors are identified by their messages. Where the source passes no status, `Status` is None, because the default is unknown.
- `UserAPI.post` calls `self.read_json()`, which `Handler` does not define (it defines `req_json`). The model takes the parsed body as its input.
- `Users.Validate`: the body is a JSON object whose values are strings. A JSON `null` name is the same as an absent one, because `data.get('name')` gives None either way and None is stored; the model writes it without the key. These cases are not modelled:
  - a body that is not an object, such as `["email"]`, which fails at `data['email']`;
  - a non-string email, which makes `re.match` raise;
  - falsy non-string names (`0`, `false`, `[]`), which skip the length check and are stored;
  - list names, which pass `len()`;
  - list passwords, which pass `len()` and then make `password_hash` raise an AttributeError.
- `Users.GetName`: every stored user has a `name` key, possibly null. A user document without `name`, whose empty projection the source would report as 'User not found', is not modelled. That case arises only through inserts outside `UserAPI.post`.
- `Rest.Renamed`: field values are ObjectIds, strings or null; other BSON value kinds and their `str` forms are not modelled.
- `jsonify` and `jsonify_list` in app/rest/tools.py:19-41 are not modelled as renamings: they index a string key when a document has `_id`, which raises. `AuthAPI.get`, `UserAPI.get` and `UserAPI.post` pass them dicts without `_id`, where they only turn ObjectId values into text and serialise. The model returns those values directly, with the new user's id as text.
- Commented-out code (`AuthAPI.put`/`delete`, `UserAPI.put`/`delete`, `check_email_exists`, `create_auth_and_check`) is not live and is not modelled.
- Concurrency between requests is not modelled. Two concurrent GET /auth calls for one pair could both insert; the sequential model cannot show that race.
- app/test.py, the Flask-era tests and their fixtures, and the Basic-auth header builder in tests/tools.py are not part of this model.
