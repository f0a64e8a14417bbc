# quickCart backend: accounts, tokens and owner-scoped products

This project models the core of the quickCart backend, a FastAPI service over MongoDB:

- **Account state machine** (`main.py`). An address goes from *unregistered* to *pending verification*
  (`register` inserts a document with a six-digit one-time code and mails it). It then becomes
  *verified* (`verify-otp` checks the code against its ten-minute expiry). Only a verified account can
  log in (`token`), and login issues a bearer JWT.
- **Credentials and tokens** (`auth.py`). This covers password hashing with a 4096-byte bound, token
  issue with `iat`/`exp`, decoding with the 401 mapping, and `get_current_user`, which turns a token
  into the caller's `{id, email}`.
- **Product routes** (`main.py`). Create, list, read, partial update and delete. Each route is scoped to
  the documents whose `owner_id` is the caller.
- **Request and response records** (`models.py`). Their required fields, defaults and limits.

Modules:

| file | module | models |
|---|---|---|
| wrappers.dfy | Wrappers, Http | `Option`, `Result`, an HTTP error (status, detail) |
| pytext.dfy | PyText | `str.strip()`, `str.lower()`, UTF-8 byte length, `str(n)` |
| objectids.dfy | ObjectIds | `ObjectId.is_valid`, `ObjectId(s)`, `str(oid)` |
| crypto.dfy | Crypto | passlib pbkdf2_sha256 and PyJWT, as symbolic values |
| models.dfy | Models | the pydantic models and their validation |
| store.dfy | Store | the users and products collections: documents, `find_one`, `insert_one`, `update_one`, `delete_one` |
| auth.dfy | Auth | auth.py |
| authflow.dfy | AuthFlow | register, verify-otp, token |
| products.dfy | Products | the product routes and `product_helper` |

How the model is built:

- Each collection is a class whose `docs` field is a sequence of documents in natural order. `find_one`
  returns the first match.
- A handler that writes is a method. Its `ensures` equals a pure step function of the documents before
  the call. The properties are lemmas about the step functions.
- Read-only handlers are functions over the documents they read: `login_for_token`, `get_product` and
  `get_current_user`.
- `get_products` keeps the source's loop over the cursor.
- These inputs are parameters:
  - the current time, in whole seconds;
  - the `random.randint` draw, constrained to 100000..999999;
  - the salt passlib draws;
  - the `_id` the driver generates;
  - whether the OTP mail was delivered.
- Uniqueness is not assumed:
  - A generated `_id` that is already taken makes the insert fail, and that is answered with 500.
  - Distinct addresses and `_id`s are invariants (`WellFormedUsers`, `DistinctIds`) that every handler
    is proved to keep.

Behaviour of the code that the model keeps:

- Login checks `is_verified` before the password. An unverified account gets 403 even with a wrong
  password.
- Register strips and lower-cases the address. Login only lower-cases it, so an address typed with
  surrounding spaces never logs in.
- Login bounds neither the password's length nor the exception from verifying it. passlib refuses to
  verify a secret over 4096 characters, so such a password on a verified account answers 500.
- The OTP is `str(randint(100000, 999999))`, so it never starts with 0.
- A failed OTP mail answers 500, but the pending document stays. The address can then neither register
  again nor log in until it is verified. Once its code expires, it can never be verified.
- An OTP is still accepted at its expiry instant (`now > expires_at` rejects). A JWT is expired at its
  `exp` (PyJWT rejects `exp <= now`).
- A zero `expires_delta` is falsy, so it falls back to the configured lifetime.

## Model

| member | source | states |
|---|---|---|
| PyText.Strip | main.py:100 | the result is a slice of the input with only `isspace()` characters outside it, and it neither starts nor ends with one |
| PyText.StripIsSlice | main.py:100 | stripping the front and then the back leaves one slice with only whitespace outside it |
| PyText.StripFixesTrimmed | main.py:136 | stripping leaves a string unchanged exactly when it has no surrounding whitespace |
| PyText.TrimStart | main.py:100 | drops a prefix made only of whitespace, and the result does not start with whitespace |
| PyText.WhitespaceExamples | main.py:100 | the ASCII blanks and separators, NEL, no-break space, the line separator and ideographic space are whitespace to strip; the zero-width space, U+180E, the byte order mark and letters are not |
| PyText.TrimEnd | main.py:100 | drops a suffix made only of whitespace, and the result does not end with whitespace |
| PyText.Lower | main.py:175 | same length; each character is lower-cased when it is an ASCII capital, and kept otherwise |
| PyText.LowerIdempotent | main.py:100 | lower-casing twice equals lower-casing once |
| PyText.LowerKeepsTrimmed | main.py:100 | lower-casing neither creates nor removes surrounding whitespace |
| PyText.Utf8Length | auth.py:28 | the UTF-8 length lies between the character count and four times it |
| PyText.Utf8LengthOfAscii | auth.py:28 | an ASCII string takes exactly one byte per character |
| PyText.DecimalString | main.py:110 | `str(n)` is a non-empty string of digits, and it starts with 0 only for n = 0 |
| PyText.DecimalRoundTrip | main.py:110 | reading `str(n)` back as a decimal number gives n |
| PyText.DecimalLength | main.py:110 | a number in [10^k, 10^(k+1)) is written with k+1 digits |
| ObjectIds.Parse | main.py:55 | `ObjectId(s)` of a valid id is the lower-case canonical form of its 24 hex digits |
| ObjectIds.ValidityExamples | main.py:55 | 24 hex digits pass in either case; 23 digits, a non-hex letter and "" fail |
| ObjectIds.ParseRendering | auth.py:63 | `str(oid)` is a valid id, and `ObjectId(str(oid))` gives back oid |
| Crypto.Pbkdf2Hash | auth.py:30 | passlib's hash raises PasswordSizeError exactly for a secret over 4096 characters; otherwise the hash carries the drawn salt and verifies the password it was made from |
| Crypto.Pbkdf2Verify | auth.py:35 | passlib's verify raises PasswordSizeError exactly for a secret over 4096 characters, before it looks at the hash |
| Crypto.HashVerifiesExactlyItsPassword | auth.py:35 | a hash verifies a password if and only if it is the hashed one, whatever the salt; a secret over 4096 characters raises instead of answering |
| Crypto.JwtEncode | auth.py:44 | the signed token carries exactly the claims it was given |
| Crypto.JwtDecode | auth.py:48 | decoding succeeds exactly when the token parses, its algorithm is allowed, the key is given and matches, and any `exp` is an instant after now; the payload is then the token's claims; an expired signature means `exp <= now` |
| Crypto.DecodeEncoded | auth.py:48 | an encoded token decodes with its own key and algorithm before its `exp`, and is expired from `exp` on |
| Models.OptionalValue | models.py:30 | an optional field is None when it is absent or null, and its value otherwise |
| Models.DefaultedValue | models.py:31 | an absent field takes its default, a null one is None, and a given one keeps its value |
| Models.ValidateUserCreate | models.py:5-7 | the body is accepted if and only if both `email` and `password` are present and not null; the errors name exactly the fields that are missing or null |
| Models.ValidateOTPVerify | models.py:24-26 | the body is accepted if and only if both `email` and `otp` are present and not null; the errors name exactly the fields that are missing or null |
| Models.ValidateProductCreate | models.py:28-33 | accepted if and only if the title is given with at most 200 characters and a given price or quantity is not negative; price defaults to 0.0 and quantity to 1 |
| Models.ValidateProductUpdate | models.py:35-40 | every field is optional; a field of the update is set exactly when the body gives it a non-null value, and then holds that value |
| Models.TokenTypeDefault | models.py:15 | a token built without a type is a bearer token |
| Store.FindUserByEmail | main.py:101 | the document found is in the collection and has that address; None exactly when no document has it |
| Store.FindUserById | auth.py:60 | the document found is in the collection and has that `_id`; None exactly when no document has it |
| Store.UserIndexByEmail | main.py:138 | the position found is the first with that address |
| Store.UserIndexById | main.py:158 | the position found is the first with that `_id` |
| Store.VerifiedDoc | main.py:159-162 | `$set is_verified` and `$unset` of both OTP fields, with address, `_id` and hash kept |
| Store.MarkVerified | main.py:157-163 | only the first document with the `_id` changes: it becomes verified and loses both OTP fields, and its other fields stay |
| Store.UsersCollection.InsertOne | main.py:121 | the document is appended exactly when its `_id` is unused; otherwise nothing changes |
| Store.UsersCollection.MarkVerifiedOne | main.py:157-163 | the new documents are MarkVerified of the old ones, and one is matched exactly when the `_id` exists |
| Store.ProductIndexById | main.py:41 | the position found is the first with that `_id` |
| Store.FindProductById | main.py:41 | the document found has that `_id`; None exactly when no document has it |
| Store.ProductIndex | main.py:58 | the position found is the first with that `_id` and owner |
| Store.FindProduct | main.py:58 | the document found has that `_id` and owner; None exactly when no document has both |
| Store.ApplySet | main.py:65-77 | `$set` of the update's non-None fields: each given field takes the new value, and every other field and the `_id` and owner stay |
| Store.ProductsCollection.InsertOne | main.py:40 | the product is appended exactly when its `_id` is unused |
| Store.ProductsCollection.UpdateOne | main.py:74-77 | the first match of `_id` and owner gets ApplySet, nothing else changes, and `matched_count` is 1 or 0 accordingly |
| Store.ProductsCollection.DeleteOne | main.py:88 | the first match of `_id` and owner is cut out, and `deleted_count` is 1 or 0 accordingly |
| Auth.LoadConfig | auth.py:15-17 | `ALGORITHM` defaults to HS256 and the lifetime to 60 minutes; SECRET_KEY may be unset |
| Auth.GetPasswordHash | auth.py:25-30 | succeeds if and only if the UTF-8 length is at most 4096 bytes, treating None as ""; the failure reads "Password too long"; a success verifies the password |
| Auth.VerifyPassword | auth.py:32-35 | None is checked as ""; the call raises exactly when the plain text is over 4096 characters, and otherwise answers as HashThenVerify states |
| Auth.HashThenVerify | auth.py:32-35 | a hash made by get_password_hash verifies exactly its own password, with None and "" the same password; verify raises exactly for a plain text over 4096 characters |
| Auth.PasswordBoundIsInclusive | auth.py:28-29 | 4096 one-byte characters hash, and 4097 do not |
| Auth.BoundIsOnBytesNotCharacters | auth.py:28 | 1025 four-byte characters already exceed the bound |
| Auth.FourByteLength | auth.py:28 | characters outside the Basic Multilingual Plane take four bytes each |
| Auth.TokenLifetime | auth.py:42 | a non-zero delta is used as it is; an absent or zero delta gives 60 times the configured minutes |
| Auth.CreateAccessToken | auth.py:37-44 | fails exactly when SECRET_KEY is unset; otherwise it signs with the key and algorithm a copy of the claims, with `iat` = now and `exp` = now + lifetime added and every other claim kept |
| Auth.DecodeAccessToken | auth.py:46-53 | succeeds exactly when the JWT decodes; an expired signature is 401 "Token expired", and any other failure 401 "Invalid token" |
| Auth.IssuedTokenDecodes | auth.py:37-53 | an issued token decodes to its payload until its `exp`, and is "Token expired" from then on |
| Auth.ZeroDeltaFallsBackToDefault | auth.py:42 | a zero delta issues the same token as no delta, and that token is valid when issued |
| Auth.ForeignTokensAreInvalid | auth.py:48-53 | a token signed with another key or algorithm is 401 "Invalid token" |
| Auth.GetCurrentUser | auth.py:55-63 | a success is exactly the `{id, email}` of the user whose `_id` is the token's `sub`; no token is 401 "Not authenticated"; a decoding failure is passed on; a missing or falsy `sub` is 401 "Invalid token payload"; a valid `sub` naming nobody is 401 "User not found"; a 500 happens only for a non-empty `sub` that is not an ObjectId |
| Auth.SubjectResolves | auth.py:55-63 | a decodable token whose `sub` names a user resolves to that user's `{id, email}` |
| AuthFlow.NormalizeEmail | main.py:100 | the normalised address is the lower-cased slice of the input with only whitespace outside it; it has no surrounding whitespace and is no longer than the input |
| AuthFlow.NormalForm | main.py:100 | normalising gives an address with no surrounding space and no capital, and such an address normalises to itself |
| AuthFlow.NormalizeEmailIdempotent | main.py:135 | normalising twice equals normalising once |
| AuthFlow.NormalizeTrimmed | main.py:175 | for an address without surrounding whitespace, register's key and login's key coincide |
| AuthFlow.CaseAndSpaceVariantsCollide | main.py:100-103 | `" A@B.com "` and `"a@b.com"` normalise to the same key |
| AuthFlow.OtpString | main.py:110 | the code has six digits, does not start with 0, and spells the draw |
| AuthFlow.OtpCodeIsTrimmed | main.py:154 | a stored code equals its own `strip()`, so a correctly typed code matches |
| AuthFlow.AppendedIsFirstByEmail | main.py:121 | after inserting an unused address, `find_one` by that address returns the new document |
| AuthFlow.AppendKeepsLookup | main.py:121 | an insert does not change which document an existing address finds |
| AuthFlow.PendingUser | main.py:113-119 | the inserted document is unverified, holds the code for the draw, and expires ten minutes on |
| AuthFlow.RegisterStep | main.py:97-131 | register either leaves the documents as they are or appends exactly one |
| AuthFlow.Register | main.py:97-131 | the handler's new documents, mail and response equal RegisterStep, and it keeps WellFormedUsers |
| AuthFlow.RegisterKeepsWellFormed | main.py:100-121 | register keeps every document well formed, and keeps addresses and `_id`s distinct |
| AuthFlow.AppendKeepsWellFormed | main.py:121 | inserting a well-formed document under an unused address and `_id` keeps the invariant |
| AuthFlow.RegisterFromUnregistered | main.py:110-131 | a fresh address and an acceptable password add one pending document with the normalised address, a verifying hash, the code and a ten-minute expiry; the code is mailed to that address; the mail outcome decides only the response |
| AuthFlow.RegisterAppends | main.py:110-131 | for a fresh address with an acceptable password, register appends one pending document with the normalised address and the hashed password, mails that document's code, and answers by whether the send worked |
| AuthFlow.RegisterDuplicate | main.py:101-103 | a taken address is refused with 400 before the password is looked at, and nothing changes |
| AuthFlow.RegisterIdTaken | main.py:120-131 | a fresh address and an acceptable password under an `_id` already in use get the 500 of the failed insert, with nothing stored and no mail |
| AuthFlow.RegisterPasswordTooLong | main.py:105-106 | a password over 4096 bytes is refused with 400 and nothing is inserted |
| AuthFlow.VariantsOfARegisteredAddressCollide | main.py:100-103 | after any insert, registering an address that normalises the same way is refused, even after a failed mail |
| AuthFlow.VerifyOtpStep | main.py:133-165 | every failure is a 400 with nothing changed; a change is MarkVerified of the account found |
| AuthFlow.VerifyOtpAt | main.py:138-165 | the same, on the normalised address and the stripped code |
| AuthFlow.VerifyUnknownAddress | main.py:138-140 | an unregistered address is 400 "User not found", with nothing changed |
| AuthFlow.VerifyNothingPending | main.py:145-149 | an unverified account with no code, an empty code or no expiry is 400 "No OTP pending", with nothing changed |
| AuthFlow.VerifyOtp | main.py:133-165 | the handler's new documents and response equal VerifyOtpStep, and it keeps WellFormedUsers |
| AuthFlow.VerifyKeepsWellFormed | main.py:157-163 | verify-otp keeps the collection invariant |
| AuthFlow.MarkVerifiedKeepsWellFormed | main.py:157-163 | marking a document verified keeps the collection invariant |
| AuthFlow.VerifyIsIdempotentOnceVerified | main.py:142-143 | a verified account gets "Email already verified" with no change, whatever code and time are given |
| AuthFlow.VerifyTwice | main.py:142-165 | after a successful verify, the account is verified, and the same request again changes nothing |
| AuthFlow.VerifySucceeded | main.py:142-165 | a successful verify-otp leaves the account it found verified |
| AuthFlow.VerifySucceededAt | main.py:142-165 | the same, on the normalised address and the stripped code |
| AuthFlow.MarkFirstVerifies | main.py:157-163 | with distinct `_id`s, the update by the found account's `_id` verifies that account |
| AuthFlow.FirstByEmailIsFirstById | main.py:158 | with distinct `_id`s, the update by `_id` lands on the document found by address |
| AuthFlow.VerifiedStaysVerifiedAt | main.py:157-163 | marking verified never un-verifies an account, and it verifies the account it lands on |
| AuthFlow.VerifyPending | main.py:145-163 | for a pending account: after the expiry, "OTP expired"; up to and including it, a wrong code is "Invalid OTP"; the right code verifies exactly that document and clears its OTP fields |
| AuthFlow.VerifyPendingAt | main.py:145-163 | the same, on the normalised address and the stripped code |
| AuthFlow.VerifyAppended | main.py:138-165 | the right code, in time, verifies exactly the account just registered |
| AuthFlow.VerificationIsPermanent | main.py:97-165 | neither register nor verify-otp takes a verified account back |
| AuthFlow.RegisterKeepsVerified | main.py:97-131 | an address whose account is verified is still verified after register, whatever was registered |
| AuthFlow.VerifyKeepsVerified | main.py:133-165 | an address whose account is verified is still verified after verify-otp, whatever was sent |
| AuthFlow.StuckAfterExpiry | main.py:101-180 | an expired pending account is refused by verify-otp (expired), by register (taken) and by login (403) |
| AuthFlow.LoginForToken | main.py:168-186 | a missing or empty field is 400 "Email and password required"; a token is issued only for a verified account whose password verifies, looked up by the lower-cased address, and such an account always gets one when SECRET_KEY is set (500 otherwise); a verified account with a password over 4096 characters gets 500, since verify raises; the token is a bearer token whose `sub` is the account's `_id` and whose `iat` is now |
| AuthFlow.LoginOutcomes | main.py:175-183 | pending gives 403 whatever the password; an unknown address and a wrong password give the same 401; a verified account with a password over 4096 characters gives 500 |
| AuthFlow.LoginDoesNotStrip | main.py:175 | an address with leading or trailing whitespace never finds an account |
| AuthFlow.RegisterVerifyLogin | main.py:97-186 | register, then verify with the mailed code within ten minutes, then log in: the token resolves through get_current_user to the new `_id` and the normalised address |
| AuthFlow.LoginIssues | main.py:168-186 | a verified account found by the lower-cased address, with a password that verifies and SECRET_KEY set, is answered the bearer token create_access_token makes for `{"sub": _id}` |
| AuthFlow.LoginThenResolve | main.py:168-186 | such a login succeeds, and until the token expires get_current_user resolves it to the `{id, email}` of that account |
| AuthFlow.IssuedTokenResolves | auth.py:55-63 | a token issued for the first account with a given `_id` resolves to that account's `{id, email}` until it expires |
| Products.ProductHelper | main.py:24-32 | the response's `id` is a valid ObjectId string naming the document's `_id`; title, description, price, quantity and image_url are copied |
| Products.HelperKeepsAllButOwner | main.py:24-32 | the rendered `id` parses back to the `_id`; for one owner, equal responses mean equal documents |
| Products.Rendered | main.py:50 | each document is rendered by `product_helper`, in order |
| Products.OwnedBy | main.py:48 | the owner filter keeps exactly the documents with that `owner_id` |
| Products.OwnedByConcat | main.py:48 | filtering distributes over concatenation |
| Products.CreateProductStep | main.py:34-42 | a null price or quantity, or a taken `_id`, gives 500 with nothing stored; otherwise exactly one document is appended, owned by the caller, and answered as rendered |
| Products.CreateProduct | main.py:34-42 | the handler, with insert and then `find_one`, equals CreateProductStep |
| Products.AppendedProductIsFound | main.py:41 | `find_one` by the inserted `_id` returns the inserted document |
| Products.CreateStoresValidatedFields | main.py:36-40 | a validated body without null price or quantity is stored with a title of at most 200 characters, price and quantity not negative, and the defaults 0.0 and 1 |
| Products.CreateThenRead | main.py:34-61 | a created product reads back by its `id`, and it is the last entry of the caller's listing |
| Products.GetProducts | main.py:44-51 | the listing is the caller's documents, in store order, rendered by `product_helper` |
| Products.GetProduct | main.py:53-61 | an invalid id is 400 "Invalid Id"; no document of the caller with the `_id` is 404; otherwise the answer is the first such document as `product_helper` renders it |
| Products.GetProductSeesOnlyOwn | main.py:53-61 | the answer depends only on the caller's own documents |
| Products.UpdateProductStep | main.py:63-81 | a failure changes nothing; an invalid id is 400 "Invalid ID"; an empty update writes nothing; a success is one of the caller's documents |
| Products.UpdateProduct | main.py:63-81 | the handler equals UpdateProductStep |
| Products.SetKeepsMatchIndex | main.py:80 | after the `$set`, the re-read finds the updated document |
| Products.UpdateMerges | main.py:63-81 | the caller's matching document gets exactly the given fields and is answered merged; an empty update answers it unchanged |
| Products.UpdateIsIdempotent | main.py:63-81 | sending the same update twice equals sending it once |
| Products.UpdateSkipsCreateLimits | models.py:35-40 | an update can store a 201-character title and a negative price |
| Products.DeleteProductStep | main.py:83-91 | an invalid id is 400; the delete succeeds exactly when the caller owns a document with the `_id`, and then it removes one document |
| Products.DeleteProduct | main.py:83-91 | the handler equals DeleteProductStep |
| Products.DeleteRemovesExactlyOne | main.py:88-91 | with distinct `_id`s, success removes exactly the document with that `_id`; it is then not found, and a second delete is 404 |
| Products.OtherOwnersUntouched | main.py:34-91 | create, update and delete leave every other owner's documents as they were, in order |
| Products.CreateLeavesOthers | main.py:34-42 | create leaves every other owner's documents as they were |
| Products.UpdateLeavesOthers | main.py:63-81 | update leaves every other owner's documents as they were |
| Products.DeleteLeavesOthers | main.py:83-91 | delete leaves every other owner's documents as they were |
| Products.ForeignReplace | main.py:74-77 | replacing another owner's document does not change an owner's documents |
| Products.ForeignRemove | main.py:88 | removing another owner's document does not change an owner's documents |
| Products.CreateKeepsDistinctIds | main.py:40 | create keeps `_id`s distinct |
| Products.UpdateKeepsDistinctIds | main.py:74-77 | update keeps `_id`s distinct |
| Products.ReplaceKeepsDistinctIds | main.py:74-77 | replacing a document by one with the same `_id` keeps `_id`s distinct |
| Products.DeleteKeepsDistinctIds | main.py:88 | delete keeps `_id`s distinct |
| Products.RemoveKeepsDistinctIds | main.py:88 | cutting one document out keeps `_id`s distinct |
| Products.NotOwnedIsNotFound | main.py:53-91 | a product the caller does not own is 404 for get, update and delete, with nothing changed; an empty update of it is 500 (`product_helper(None)`) |

## Left out

- Sending mail (`email_utils.py`). The outcome of `send_otp_email` is a boolean parameter, and the mail
  is returned as a value.
- The MongoDB client (`database.py`). Indexes, `_id` generation and asynchronous I/O are replaced by the
  class-based collections and the `_id` parameter.
- Real PBKDF2-SHA256 and HS256 signing. Hashes and tokens are symbolic values. The library promises
  (verify accepts exactly the hashed password; both hash and verify raise PasswordSizeError for a
  secret over 4096 characters; decode checks algorithm, key and `exp`) are proved about them.
- `random.randint` and `datetime.utcnow`. They are parameters, and time is whole seconds.
- Concurrency between requests. Each handler is one atomic step, and the race between the duplicate
  check and the insert in register is not modelled.
- FastAPI routing, dependency resolution order, CORS, the `print` warning at import, and
  `jsonable_encoder`.
- Floating point. `price` is a real, and `float()`/`int()` coercion of values that are already numbers
  is the identity.
- `EmailStr` and `HttpUrl` format checks, and non-string JSON values in the login form.
- `str.lower()` on non-ASCII letters, which the model leaves unchanged.
- `str.encode("utf-8")` on lone surrogates, which raises in Python.
- PyJWT's `iat` and `nbf` checks, and the behaviour of an unsupported `ALGORITHM` value.
- `int()` parsing of ACCESS_TOKEN_EXPIRE_MINUTES. The variable is taken as an integer or unset.
- ObjectIds.IsValid: accepts exactly the strings of 24 hexadecimal digits. bson passes a 24-character
  string to `bytes.fromhex`, which also skips ASCII whitespace between digit pairs; such strings are
  not modelled, so the model answers them 400 "Invalid Id" where the service would go on to the lookup.
- `ObjectId` values of type bytes. The model renders ids as lower-case hex strings, and `ObjectId(s)`
  accepts either case.
- The `password is None` test in `register`, which is unreachable because `UserCreate.password` is
  required.
- Products.OwnerOf: the model requires the caller's `id` to be a valid ObjectId, which get_current_user
  guarantees. It does not model the `InvalidId` a handler would raise for any other string.
