# cha_authentication, modelled in Dafny

This project models the authentication core of the Django app `cha_authentication`.
The model covers:

- a bearer-token authenticator for websocket connections;
- a login backend that matches phone numbers;
- an Algerian phone-number validator;
- the login, access-code and password-reset serializers and views;
- three middlewares;
- two small permission combinators.

Three abstract tables stand in for the database: users, multi-device tokens, and
password-reset records (`Verification`). Each operation is stated over them, and the
properties the code promises are proved.

One module per source file:

| module | models |
|---|---|
| `Base` | Optional values, results, bytes, Python truthiness, and how a request fails. |
| `ByteStrings` | `bytes.split()` and `bytes.lower()`. |
| `Utf8` | Strict `bytes.decode()` and `str.encode()`. |
| `QueryString` | The `bytes` path of `urllib.parse.parse_qs` as CPython 3.13 has it, and urllib's `quote` as its partner. |
| `Models` | The records, `Verification.send` / `reset_link` / `build_sms`, and `DeletableModel.delete`. |
| `Store` | Django's `.get()`, `.first()` and `.exists()` over tables kept in primary-key order, and the `Database` class with the constraints the database enforces. |
| `Authentication` | authentication.py. The verbatim copy of the websocket authenticator in backends.py (backends.py:35-84) is the same model. |
| `Backends` | `PhoneBackend.authenticate`. |
| `Validators` | `PhoneValidator`. |
| `Serializers` | The login and password-reset serializers. |
| `Views` | The login, logout and password-reset views. |
| `Middleware` | The three middlewares. |
| `Permissions` | `IsReadOnly`, `IsStaff`, `Or` and `And`. |

Outside calls become parameters:

- The password hasher is a pair of uninterpreted functions (`Models.Hasher`).
- Generated values are arguments: the token key, the OTP, and the clock for `last_login`.
- The parent `AuthTokenSerializer.validate` (user name and password) is a function argument.
- The import-and-call of the custom validation hook is a function argument.
- What DRF's header authenticator returns for a request is an argument.

An exception nothing catches is `Failure.Unhandled(<exception name>)`. A
`ValidationError` is `Failure.ValidationError(<message>)`, with the source's exact text.

## Behaviour kept as written

- **Reset request re-query.** When an open record exists, a reset request re-reads
  "the first record for this identifier" without the `expired=False` filter
  (serializers.py:90, serializers.py:98). Suppose the identifier already has an older,
  expired record and a request creates a new one. A second request then returns the
  older expired record, and its `send` delivers nothing. `Serializers.RepeatedRequest`
  states exactly when the two requests agree.
- **Access-code login.** It checks neither the password nor `is_active`
  (`Serializers.AccessCodeAdmitsInactive`).
- **Missing token user.** A token whose user row is missing fails as `Invalid token.`:
  `select_related` joins the user in the same query.
- **`$` in the phone pattern.** Python's `$` also matches before one final newline, so
  `"0551234567\n"` is accepted (`Validators.MatchIffInLanguage`).
- **Reset-link check.** views.py:17 imports the abstract `Verification` model
  (models.py:61-64) rather than the concrete model that serializers.py:12 obtains from
  `get_verification_model()`. An abstract model has no `objects` manager, so the check at
  views.py:91 raises `AttributeError` for every non-empty `otp`. This is listed under
  Findings; the rest of the model uses the intended check, `Views.ResetPasswordGet`.
- **Login `last_login`.** Login writes `last_login` before it inserts the token, and
  nothing wraps the two in a transaction. So a key collision leaves `last_login` updated
  and raises `IntegrityError` (`Views.LoginPost`).

## Model

| member | source | states |
|---|---|---|
| `Authentication.WebsocketAuthorizationQuery` | authentication.py:10-17 | A text query string never yields a credential. For a bytes query, the credential is `b''` iff the parsed query has no `Authorization` pair; otherwise it is the value of the first `Authorization` pair. |
| `Authentication.AuthenticateCredentials` | authentication.py:53-63 | Succeeds iff the key is in the token table and its user exists and is active. Success returns that token and its user, and the token's key is the key looked up. It fails with `Invalid token.` iff the key or its user row is missing, and with `User inactive or deleted.` iff the user is inactive. |
| `Authentication.Message` | authentication.py:40-61 | Exactly the three malformed-header failures carry the prefix `Invalid token header. `. |
| `Authentication.MessagesDistinct` | authentication.py:40-61 | The five failures carry five different messages. |
| `Authentication.AuthenticateCredentialBytes` | authentication.py:34-51 | The full outcome table over the split credential. It is not attempted iff there is no word or the first word is not `token` in any letter case. One word fails with no-credentials; more than two fail with spaces; two words whose second is not UTF-8 fail with invalid-characters. Two words whose second decodes give exactly the token lookup of the decoded key. On success the user is active and owns a token of the table; when the table is keyed by token keys, that token's key encodes to the second word. |
| `Authentication.AuthenticateWebsocket` | authentication.py:10-51 | The outcome is the credential check applied to the first `Authorization` value of the query. A text query string is not attempted. A success returns an active user that owns a token of the table. |
| `Authentication.BlankCredentialsNotAttempted` | authentication.py:35-37 | Empty or white-space-only credentials are not attempted, and that is not an error. |
| `Authentication.MalformedNeedsNoLookup` | authentication.py:36-49 | When the result is not-attempted or one of the three malformed-header failures, it is the same for every user and token table: no lookup happens. |
| `Authentication.KeywordBytesValue` | authentication.py:25 | `keyword.lower().encode()` is the bytes `token`. |
| `Authentication.WellFormedCredentials` | authentication.py:34-51 | `<keyword in any case> <key>`, with any white space before, between (at least one byte) and after, authenticates exactly as the lookup of `key` decides, for every key whose UTF-8 form has no white space. |
| `Authentication.KeywordCaseInsensitive` | authentication.py:36 | For any words separated by any white space, changing the letter case of the keyword never changes the outcome. |
| `Authentication.QueryTransportAgreesWithHeader` | authentication.py:16 | The query `Authorization=<quoted credential>` gives the same outcome as the same credential bytes read directly. |
| `ByteStrings.Words` | authentication.py:35 | Every piece of `split()` is non-empty and free of white space, and there is no piece iff the input is all white space. |
| `ByteStrings.WordsOfJoinGaps` | authentication.py:35 | Splitting undoes joining words with any white-space gaps, provided the gaps between words are non-empty. |
| `ByteStrings.WordsCover` | authentication.py:35 | Every byte string is its pieces joined by white-space gaps, with non-empty gaps between pieces: `split()` drops only white space. |
| `Utf8.DecodeEncode` | authentication.py:46 | Every string survives encoding then decoding. |
| `Utf8.EncodeDecode` | authentication.py:46 | A byte string that decodes is the encoding of its text. |
| `Utf8.DecodeSucceedsExactlyOnEncodings` | authentication.py:45-49 | Decoding gives `s` iff the bytes are the encoding of `s`; every other byte string is refused. |
| `QueryString.JoinSplit` | authentication.py:16 | Cutting the query at `&` loses nothing: joining the fields again gives the query back. |
| `QueryString.Partition` | authentication.py:16 | A field is cut at its first `=`: the name holds no `=`, and name, separator and value make up the field. |
| `QueryString.FirstValue` | authentication.py:16 | The result is the value of the first pair with the wanted name, or `b''` when no pair has that name. When every value is non-empty, the result is non-empty iff the name occurs. |
| `QueryString.ParsePairs` | authentication.py:16 | Every parsed pair has a non-empty value: `parse_qs` drops blank values. |
| `QueryString.UnquotePercentEncode` | authentication.py:16 | Query decoding (`+` to space, then `%XY` escapes) undoes urllib's `quote`. |
| `QueryString.SingleFieldQuery` | authentication.py:16 | The single field `name=quote(value)` gives back `value`, whatever bytes it holds, as the first value of `name`. |
| `Models.SendBranches` | models.py:32-40 | `send` does nothing on an expired record. Otherwise it enters the email branch iff the email is non-empty and has no `dummy`, and the SMS branch iff the phone is non-empty. Both branches are empty, so nothing changes. |
| `Models.ResetLink` | models.py:42-44 | The reset link starts with the fixed prefix and is as long as the prefix plus the OTP. |
| `Models.ResetLinkCarriesOtp` | models.py:42-44 | Stripping the prefix from the reset link recovers exactly the OTP. |
| `Models.BuildSms` | models.py:55-59 | The SMS is as long as the fixed intro, the OTP and the fixed end together. |
| `Models.SmsCarriesOtp` | models.py:55-59 | The text between the fixed intro (ending `:\n`) and the fixed end (` \n`) is exactly the OTP. |
| `Models.DeletableRecord.constructor` | models.py:91 | A new row is visible. |
| `Models.DeletableRecord.Delete` | models.py:95-97 | Delete hides the row and saves the hidden flag. The new state does not depend on the old one, so deleting twice is deleting once. |
| `Store.First` | serializers.py:90 | `.first()` is the earliest matching row, and `None` iff no row matches. |
| `Store.Get` | serializers.py:39 | `.get()` finds the one matching row. It raises `DoesNotExist` iff none matches, and `MultipleObjectsReturned` iff two do. |
| `Store.UserById` | authentication.py:56 | The joined user row has the token's user id; `None` iff no such row exists. |
| `Store.Database.constructor` | models.py:18-30 | A fresh database has no tokens and no verification records, and satisfies the key-order and unique-OTP constraints and the at-most-one-open-record-per-identifier invariant. |
| `Store.SaveVerification` | serializers.py:137 | `save()` of a record read from the table replaces the rows with its key by it and keeps every other row and every key in place. |
| `Validators.MatchIffInLanguage` | validators.py:9 | The pattern accepts exactly a prefix (`+213`, `00213` or `0`), then 5, 6 or 7, then eight digits, optionally followed by one final newline. |
| `Validators.AcceptedLengths` | validators.py:9 | An accepted value has 10, 13 or 14 characters, or 11, 14 or 15 when it ends in the admitted newline. |
| `Validators.AcceptsSpelledNumbers` | validators.py:9 | Every number of the language is accepted, with or without one final newline. |
| `Validators.PrefixIsUnique` | validators.py:9 | The prefix alternative of an accepted number is determined by its spelling. |
| `Validators.NewPhoneValidator` | validators.py:11-13 | A given message replaces the default; otherwise the default `Enter a valid phone number.` stays. |
| `Validators.Validate` | validators.py:15-17 | Passes iff the value is in the phone language (optionally with one final newline). Otherwise it raises with the instance's message, code `invalid` and the value. |
| `Validators.CodeArgumentIgnored` | validators.py:11-17 | The `code` and `allowlist` arguments make no difference: the code raised is always `invalid`. |
| `Backends.Authenticate` | backends.py:19-32 | Without a name or a password, it returns `None` with no lookup and no hashing. A returned user is the only user whose phone matches the name, is active, and passes the password check. Two matching users raise `MultipleObjectsReturned` with no hashing. Every other path hashes exactly once, on the submitted password. |
| `Backends.ResolvedUsername` | backends.py:20-21 | A given name is kept; otherwise the `USERNAME_FIELD` keyword argument is used, and the name is absent iff neither exists. |
| `Backends.UnknownPhoneHashesOnce` | backends.py:24-29 | An unknown phone gives `None` after exactly one hashing of the submitted password. |
| `Backends.KnownPhone` | backends.py:30-32 | For the one user with a matching phone, the result is that user iff the password checks and the user is active, otherwise `None`. Either way it makes exactly one check, against that user's stored password. |
| `Backends.PhoneCaseInsensitive` | backends.py:25 | The letter case of the submitted phone never changes the outcome. |
| `Serializers.ValidateLogin` | serializers.py:34-46 | With no access code, the parent check decides. With one, the result is the only user holding that code. It fails with `Unable to log in with provided credentials.` iff no user holds it, and raises `MultipleObjectsReturned` iff two do. |
| `Serializers.AccessCodeSkipsPassword` | serializers.py:37-41 | With an access code, neither the password nor the parent check affects the result. |
| `Serializers.AccessCodeAdmitsInactive` | serializers.py:37-41 | The access-code path logs in an inactive user. |
| `Serializers.ValidateResetRequest` | serializers.py:72-79 | Accepts iff exactly one of email and phone is non-empty. "Neither" and "both" raise their two distinct messages. |
| `Serializers.IdentifierOf` | serializers.py:85-100 | A non-empty email takes precedence over the phone. |
| `Serializers.NewRecord` | serializers.py:92-100 | A created record carries the identifier, is open, and has the given key and OTP. |
| `Serializers.RequestReset` | serializers.py:84-102 | A request adds at most one record: either the table is unchanged, or exactly one record is appended. An added record is open, carries the identifier and takes the next key. A returned record carries the identifier. |
| `Serializers.RequestResetKeepsTableValid` | serializers.py:84-102 | A request keeps the table in key order, below the next key, with unique OTPs, and keeps at most one open record per email and per phone. |
| `Serializers.AtMostOneOpenRecord` | serializers.py:89-100 | Under that invariant, two open records for the same identifier are the same record. |
| `Serializers.UnknownIdentifierChangesNothing` | serializers.py:85-95 | An identifier no user has raises `User doesn't exist.` and stores nothing. |
| `Serializers.RecordAddedExactlyWhen` | serializers.py:85-100 | A record is added iff a user has the identifier, no open record exists for it, and the generated OTP is fresh. |
| `Serializers.ReuseReturnsFirstRecord` | serializers.py:89-98 | With an open record present, nothing is stored and the identifier's first record is returned, whether expired or not. |
| `Serializers.RepeatedRequest` | serializers.py:89-101 | A second request stores nothing. It returns the same record iff the first request reused an open record or the identifier had no earlier record. Otherwise it returns an expired record, which `send` does not deliver. |
| `Serializers.ValidatePasswordReset` | serializers.py:110-123 | Different passwords fail first. An unknown OTP fails as not found. Under unique OTPs, the OTP passes iff its record is open and fails as expired iff its record is expired. A passing result is the record with that OTP. |
| `Serializers.MismatchFailsFirst` | serializers.py:111-113 | Different passwords fail with `passwords don't match`, whatever the table holds. |
| `Serializers.ResetPassword` | serializers.py:128-138 | On success, the one owner row gets the new password, and the rows with the record's key become expired. All other users and records are unchanged. A failed owner lookup writes nothing. A sound hasher accepts the new password against the stored one. |
| `Serializers.OwnerMatcher` | serializers.py:130-133 | The owner lookup matches by email when the record's email is non-empty, and by phone otherwise. |
| `Serializers.OwnerOfNewRecord` | serializers.py:130-133 | The owner lookup of a record created for an identifier matches exactly the users who have that identifier. |
| `Serializers.ResetPasswordKeepsTableValid` | serializers.py:136-137 | Consuming keeps the table in key order with unique OTPs and at most one open record per email and per phone. |
| `Serializers.CloseKeepsTableValid` | serializers.py:136-137 | Saving a record of the table as expired keeps key order, unique OTPs and at most one open record per identifier. |
| `Serializers.ConsumedOtpFailsAsExpired` | serializers.py:115-118 | After a successful reset, the same OTP fails validation as expired, with any passwords. |
| `Serializers.CreateResetRequest` | serializers.py:84-102 | On the database, the step follows `RequestReset`, touches no user and no token, and returns the branches `send` enters. |
| `Serializers.PasswordResetCreate` | serializers.py:128-138 | On the database, the step follows `ResetPassword` and leaves the tokens alone. |
| `Views.RSplitDot` | views.py:61 | There is no split iff the setting has no dot. Otherwise `module + '.' + func` rebuilds the setting, and `func` has no dot. |
| `Views.RunCustomValidation` | views.py:59-64 | The hook is skipped when the setting is absent or `NONE`. A setting without a dot raises `ValueError`. Otherwise the hook runs on the split at the last dot. |
| `Views.IssueToken` | views.py:47 | Creating a token adds exactly one key and keeps every existing token. The new token belongs to the user. A taken key raises `IntegrityError`. |
| `Views.WithLastLogin` | views.py:46 | Only `last_login` of the rows with the user's id changes, and it becomes the given time. |
| `Views.LoginPost` | views.py:40-57 | Validation and the hook come before any write, and a failure there changes nothing. Then `last_login` is updated and one token is created. The response carries the new key and the user's fields. |
| `Views.LogoutPost` | views.py:76-82 | An authenticated request deletes exactly the token it authenticated with and answers 204. |
| `Views.ResetPasswordGet` | views.py:89-93 | As intended, reading the concrete verification model: valid iff the `otp` parameter is non-empty and an open record has it. |
| `Views.ResetPasswordGetAsWritten` | views.py:89-93 | As written: an empty `otp` gives `false`; a non-empty one raises `AttributeError`, because the abstract `Verification` has no manager. |
| `Views.AbstractManagerCounterexample` | views.py:91 | For a table with one open record and its OTP, the code as written raises while the intended check answers valid. |
| `Views.OtpCheckAgreesWithValidation` | views.py:89-93 | Under unique OTPs, the check page says valid iff a reset with that OTP and two equal passwords passes validation. |
| `Views.ResetPasswordPost` | views.py:95-100 | A validation failure writes nothing. Otherwise the consume step runs, and the response is the fixed message. |
| `Views.PhoneFieldCheck` | serializers.py:70 | A non-empty phone must pass the default `PhoneValidator`, or the request fails with its message. |
| `Views.RequestPasswordResetPost` | views.py:106-111 | Field and validation failures store nothing. Otherwise the request step runs. The response is the fixed `Password reset requested.` and never the record. |
| `Middleware.ProcessRequest` | middleware.py:15-19 | `request` and `referrer` are always set. `user` is set only for an authenticated request. |
| `Middleware.ProcessResponse` | middleware.py:21-28 | Afterwards none of the three attributes is set, also when none was. The response passes through unchanged. |
| `Middleware.TokenAuthProcessRequest` | middleware.py:33-45 | An authenticated request is left alone and the authenticator is not asked. Otherwise: a `None` result gives `AnonymousUser`, a success gives its user, and a failure leaves `request.user` as it was. |
| `Middleware.SocketUser` | middleware.py:57-64 | The scope user is the authenticated user on success. It is `AnonymousUser` when nothing was attempted or authentication failed. |
| `Middleware.ScopeForApp` | middleware.py:56-64 | The copy keeps the query string and always has a user. The user is signed in iff the websocket authentication succeeds, and is then an active user owning the token. |
| `Middleware.SocketMiddleware.Call` | middleware.py:53-65 | The application is called exactly once, with the copied scope. |
| `Permissions.FirstGranting` | permissions.py:27-31 | An `Or` stops at the first member that grants: every member before it refuses. |
| `Permissions.FirstRefusing` | permissions.py:41-45 | An `And` stops at the first member that refuses: every member before it grants. |
| `Permissions.ReadOnlyMethods` | permissions.py:11-12 | `IsReadOnly` grants exactly GET, HEAD and OPTIONS. |
| `Permissions.StaffOnly` | permissions.py:17-18 | `IsStaff` grants exactly an authenticated staff user. |
| `Permissions.OrIsAny` | permissions.py:27-31 | `Or` grants iff some member grants; an empty `Or` refuses. |
| `Permissions.AndIsAll` | permissions.py:41-45 | `And` grants iff every member grants; an empty `And` grants. |
| `Permissions.OrStopsAtFirstGrant` | permissions.py:28-30 | Members after the first that grants are never asked: replacing them changes nothing. |
| `Permissions.AndStopsAtFirstRefusal` | permissions.py:42-44 | Members after the first that refuses are never asked: replacing them changes nothing. |

## Findings

| source | as written | input that shows it | evidently intended | confidence | as-written member | corrected member |
|---|---|---|---|---|---|---|
| views.py:17, views.py:91 | The OTP check reads `Verification.objects` on the abstract model imported from models.py, which has no manager, so every non-empty `otp` raises `AttributeError` (a 500 response). | `GET ?otp=123456` with one open record whose OTP is `123456`. | Query the concrete model from `get_verification_model()`, as serializers.py:12 does, and answer `{"valid": true}`. | high, not executed | `Views.ResetPasswordGetAsWritten`, `Views.AbstractManagerCounterexample` | `Views.ResetPasswordGet` |

## Left out

- contexts.py: the per-thread and per-task storage behind `CurrentApplicationContext`. One `ApplicationContext` object stands for the context the running request sees.
- Concurrency, database races and the transaction machinery: `@atomic` is one step, and no other request interleaves.
- The password-hashing algorithm, salting, and hash upgrades during `check_password`: the hasher is an uninterpreted pair of functions.
- The timing of `PhoneBackend`: only the number of hasher calls is modelled.
- `MultiTokenAuthentication` (authentication.py:20-21): its header parsing is DRF's `TokenAuthentication`, which is not part of this model. `Middleware.TokenAuthProcessRequest` takes that authenticator's outcome as an argument.
- The parent `AuthTokenSerializer.validate` (serializers.py:46): DRF's user-name and password check is not part of this model and is a function argument.
- DRF field validation: required and blank fields, whitespace trimming, and the `EmailField` format. The `PhoneValidator` on the phone field is modelled. A blank email or phone therefore reaches `validate`, where it counts as absent.
- `generate_otp`, `Token.generate_key` and `timezone.now`: they are not part of this model, and their values are arguments.
- The `max_length=10` of `Verification.otp` is not enforced by the database for a text field, and the model does not enforce it.
- Email and SMS delivery: `build_email`, the templates, and the (empty) delivery branches of `send`. `send` is modelled as the set of branches it enters.
- `import_module` and `getattr` in `run_custom_validation`: the hook is an argument that gives the exception raised, if any.
- `SessionLogin`, `CheckAuth`, `PermissionView` and `GroupView`: rendering and DRF generic views with no logic of their own.
- `Round`, `Month`, `BaseModel`, `HistoryModel`, and the `Permission` and `Group` serializers: SQL helpers, timestamps, history and plain model serializers.
- urls.py, forms.py and setup.py: configuration only.
- `Or.__call__` (permissions.py:33-34): it returns the instance itself. Permissions are values here, so there is nothing to model.
- Unicode case folding: `phone__iexact` is modelled as ASCII case folding. `bytes.lower()` folds only ASCII in Python as well.
- The `receive` and `send` arguments of the socket middleware and the application's return value: the application is recorded only through the scopes it is called with.
- The response status codes and bodies beyond what the model states: a `ValidationError` becomes a 400 response, `NotAuthenticated` a 401 or 403, and an unhandled exception a 500.
- Older Python releases, among them 3.8 to 3.10 which setup.py lists: their `parse_qsl` first decodes a `bytes` query as ASCII, so a query string holding a non-ASCII byte raises `UnicodeDecodeError`, which escapes the socket middleware. The model follows the 3.13 `bytes` branch, where such a query parses.
- Store.SaveVerification: models only the update of a record read from the table. Django's fall-back insert when no row has the key never happens in this code.
