# User registry: a verified Dafny model

This project models the core of a small user-registry HTTP service. Each user has an Israeli
national ID, a name, a mobile phone number and an address. The service holds the users in one
in-memory dictionary keyed by ID. It loads that dictionary from a JSON file, lists the names,
looks a user up by name without regard to case, and creates users after validating them.

The model has four modules:

- `Users` (`user.dfy`) models `user.py`.
  - The `User` record is an immutable datatype. Its constructor stores the four fields unchanged by definition.
  - `ToDict` is its four-key dictionary form.
  - `FromDict` is how the loader builds a user from a record, or `None` where reading a field would raise `KeyError`.
- `Validator` (`validator.dfy`) models `validator.py`.
  - `IsValidIsraeliId` is the ID checksum loop. It is a method proved against the recursive specification `PrefixSum` (the checksum over the first n positions) and the predicate `ValidId`.
  - `LuhnSum` is the standard Luhn sum, read from the right with every second digit doubled. It is an independent reference for the checksum, which the docstring calls "the checksum and Luhn algorithm".
  - `IsValidPhone` is the pattern `05[0123458]\d{7}`, written as one character class per position.
- `Server` (`server.dfy`) models `server.py`.
  - The module-level dictionary becomes the `Registry` class. Its fields are `keys`, the insertion order that Python's dictionary iterates in, and `users`, the entries.
  - Its methods are `Load`, `Names`, `FindByName` and `Create`.
  - Each method is specified by pure functions over the value `UserMap`: `Ingest`, `Values`, `Lookup`, `CreateResponse` and `AfterCreate`. Lemmas prove properties of those functions.
  - An HTTP reply is a `Response`: `Ok(user)` (status 200 or 201, body `ToDict(user)`), `Error(message)` (status 400) or `NotFound` (status 404, "User not found").
- `Wrappers` (`wrappers.dfy`) holds the `Option` type.

Two behaviours of the code are modelled as written, although the loader's docstring (server.py:14, "Invalid users (bad ID or phone) are skipped") and its log messages (server.py:40 and 42, "Starting with an empty user map") suggest otherwise:

- A record in the users file that lacks one of the four fields is not skipped. Reading it raises `KeyError`, and `load_users_from_file` does not catch that error. `Registry.Load` stops at that record with `MissingKey(index)` and keeps the users inserted before it.
- A missing or undecodable file leaves the dictionary as it was. The code does not clear it, so the collection is empty only because loading happens at startup.

## Model

| member | source | states |
|---|---|---|
| `Users.ToDict` | user.py:20-33 | The dictionary has exactly the keys id, name, phone and address, and each value is the matching field. |
| `Users.FromDict` | server.py:26-29 | A user is built exactly when the record has all four fields. That user's dictionary is the record restricted to the four fields. |
| `Users.FromDictToDict` | user.py:11-33 | Building a user from the values of `u.to_dict()` gives `u` back. The loader relies on this round trip. |
| `Users.ToDictInjective` | user.py:28-33 | Two users with the same dictionary are equal, so `to_dict` loses nothing. |
| `Validator.Weight` | validator.py:22 | The multiplier is 1 or 2, and it is 2 exactly at odd positions. |
| `Validator.Contribution` | validator.py:22-24 | The contribution of a digit is at most 9. It equals the digit sum of the digit times its weight. |
| `Validator.PrefixSum` | validator.py:20-25 | The checksum total over the first n positions is at most 9 per digit, so at most 81 for nine digits. |
| `Validator.IsValidIsraeliId` | validator.py:3-27 | The loop returns true exactly for `ValidId`: nine ASCII digits whose weighted sum is divisible by 10. Any other length and any non-digit character are rejected. |
| `Validator.PrefixSumUpdate` | validator.py:20-25 | Changing the digit at position i leaves every total over fewer than i + 1 positions unchanged. It changes every longer total by exactly the change in that position's contribution. |
| `Validator.ContributionInjective` | validator.py:22-24 | At a fixed position, different digits contribute different amounts. |
| `Validator.ContributionIsLuhn` | validator.py:22-24 | A digit's contribution is its Luhn value, doubled exactly at odd positions. |
| `Validator.PrefixSumIsLuhn` | validator.py:20-25 | The left-to-right weights 1, 2, 1, ... are the Luhn doubling counted from the right. Over n digits the last one is doubled exactly when n is even. |
| `Validator.ValidIdIsLuhn` | validator.py:5-27 | `ValidId` holds exactly for nine digits that pass the standard Luhn check. |
| `Validator.SingleDigitErrorDetected` | validator.py:20-27 | Changing any single digit of a valid ID gives an invalid ID. |
| `Validator.WeightedSumExample` | test_server.py:33 | The weighted sum of "123456782" is 40. |
| `Validator.ValidIdExample` | test_server.py:33 | "123456782" is a valid ID. |
| `Validator.ShortIdExample` | test_server.py:56 | "12345" is not a valid ID. |
| `Validator.IsValidPhone` | validator.py:29-43 | A phone is valid exactly when it has length 10, starts with "05", has a third character in 0123458 and has digits in positions 3 to 9. |
| `Validator.PhoneExamples` | test_server.py:33-94 | The phones of the tests: "0501234567" (lines 33, 56), "0531234567" (line 60) and "0539876543" (line 94) are valid, and "0591234567" (line 58) is not. |
| `Server.Values` | server.py:54 | `users_map.values()` has one element per entry of the dictionary. A user is listed exactly when it is stored under some key. The i-th element is the user under the i-th key in iteration order. |
| `Server.KeyCount` | server.py:54 | The dictionary has one key in its iteration order per entry. |
| `Server.Put` | server.py:36 | Dictionary assignment stores the user under the key and leaves every other entry unchanged. The existing keys keep their order, and the key list grows by one exactly when the key is new. |
| `Server.Admit` | server.py:30-36 | One pass of the load loop keeps the dictionary well formed. |
| `Server.Ingest` | server.py:25-36 | Running the load loop over any list of complete records keeps the dictionary well formed. |
| `Server.FirstIncomplete` | server.py:25-29 | Gives the position of the first record lacking a field, where `KeyError` is raised. Every earlier record is complete. |
| `Server.LastAdmitted` | server.py:25-36 | Names no user exactly when no record is admitted under the key. Otherwise it is the user built from an admitted record with that ID, with no admitted record of that ID after it, and that user has a valid ID and phone. |
| `Server.LastAdmittedAtExtend` | server.py:25-36 | A record not admitted under a key, appended to the list, leaves the last admitted record of that key last and admits nothing new under it. |
| `Server.IngestLookup` | server.py:25-36 | After loading, a key holds the user of the last admissible record with that ID if there is one, and otherwise its earlier entry. Invalid records are skipped, and there is no duplicate check. |
| `Server.IngestKeepsConsistent` | server.py:30-36 | Loading keeps the invariant. Every user is stored under its own ID, with a valid ID and phone. |
| `Server.Snapshot` | server.py:134 | The records that saving writes are one complete record per user, in iteration order. |
| `Server.IngestSnoc` | server.py:25-36 | Loading one more record is one more pass of the loop body. |
| `Server.IngestStep` | server.py:25-36 | After i + 1 complete records the loop has done one more pass than after i. |
| `Server.PrefixStep` | server.py:36 | Extending the first n - 1 entries by the n-th key is the dictionary assignment of that key. |
| `Server.SnapshotPrefixSnoc` | server.py:134 | The first n saved records are the first n - 1 records followed by the dictionary of the n-th user in iteration order. |
| `Server.LoadOneMore` | server.py:26-36 | Loading one more valid user's dictionary assigns that user under its own ID. |
| `Server.SnapshotStep` | server.py:25-36 | Loading one more saved record extends the rebuilt dictionary by exactly that user's entry. |
| `Server.SnapshotPrefixLoads` | server.py:25-36 | Loading the first n saved records rebuilds the first n entries of the dictionary. |
| `Server.PrefixAll` | server.py:54 | The prefix covering every key in iteration order is the whole dictionary. |
| `Server.SaveLoadRoundTrip` | server.py:25-36 | Loading what saving writes rebuilds the same dictionary, with the same entries in the same order. |
| `Server.Lower` | server.py:69 | The lower-cased string equals the original up to case, and it contains no ASCII capital. |
| `Server.LowerCharSame` | server.py:71 | Two characters lower-case to the same character exactly when they are equal or ASCII case partners. |
| `Server.LowerEqualIff` | server.py:69-71 | Comparing lower-cased strings, as the lookup does, is comparing the strings up to case, in both directions. |
| `Server.FirstMatchSameLower` | server.py:70-72 | The first match depends on the query only through its lower-cased form. |
| `Server.FirstMatchAt` | server.py:70-72 | A matching user with no matching user before it is the one the loop returns. |
| `Server.Lookup` | server.py:69-73 | The answer is never an error. A found user is stored and matches the query up to case, and no user earlier in iteration order matches. Not-found is answered exactly when no stored user matches. |
| `Server.FirstMatch` | server.py:70-73 | Gives the first user in iteration order whose lower-cased name equals the lower-cased query, or none when no user matches. |
| `Server.LookupCaseInsensitive` | server.py:69-72 | Two queries that differ only in the case of letters get the same answer. |
| `Server.StoredNameFound` | server.py:69-73 | A query that differs from a stored user's name only in case finds a user whose name matches the query up to case. |
| `Server.LookupExample` | test_server.py:29-38 | A user stored as "Roei" is found by the query "ROEI". |
| `Server.MissingField` | server.py:96-99 | Reports the first required field that is absent or empty, or nothing when all are given. |
| `Server.FindMissingField` | server.py:96-99 | The required-field loop returns the first absent or empty field among id, name, phone and address, in that order. |
| `Server.NoneMissingIff` | server.py:96-99 | No field is reported missing exactly when all four fields are present and non-empty. |
| `Server.CreateResponse` | server.py:88-112 | A create reply is never not-found, and a body that is not JSON gets "Invalid JSON input". A successful reply carries the user built from the body's four fields; its ID is not yet stored, and its ID and phone are valid. |
| `Server.AfterCreate` | server.py:111-116 | The dictionary after a create request is still well formed. |
| `Server.RejectedCreateKeepsMap` | server.py:97-112 | Every rejected create leaves the dictionary unchanged. |
| `Server.CreateCheckOrder` | server.py:96-99 | The first missing field is the one reported, whatever else is wrong. |
| `Server.CreateSucceedsIff` | server.py:96-116 | A create succeeds exactly when all fields are given, the ID and phone are valid and the ID is not stored. |
| `Server.InvalidIdReportedFirst` | server.py:106-109 | With all fields given, an invalid ID is reported before the phone is checked. An invalid phone is reported before the duplicate check. |
| `Server.DuplicateRejected` | server.py:111-112 | A valid request with a stored ID gets "User already exists", and the stored user is kept. |
| `Server.CreateAddsOne` | server.py:114-121 | A successful create adds exactly one new key, placed last, mapping to the user built from the four fields. Other entries are unchanged and the size grows by one. |
| `Server.CreateKeepsConsistent` | server.py:106-116 | Create keeps the invariant: every user is keyed by its own ID and has a valid ID and phone. |
| `Server.MissingPhoneExample` | test_server.py:54 | The test payload without a phone gets "Missing field: phone". |
| `Server.InvalidIdExample` | test_server.py:56 | The test payload with the ID "12345" gets "Invalid ID". |
| `Server.InvalidPhoneExample` | test_server.py:58 | The test payload with the phone "0591234567" gets "Invalid phone number". |
| `Server.ValidCreateExample` | test_server.py:60 | The valid test payload creates its user. |
| `Server.DuplicateExample` | test_server.py:86-98 | Posting a stored ID again gets "User already exists". |
| `Server.Registry.constructor` | server.py:9 | The registry starts as an empty dictionary. |
| `Server.Registry.Store` | server.py:116 | Dictionary assignment: an existing key keeps its place, and a new key goes last. |
| `Server.Registry.LoadRecord` | server.py:26-36 | One pass of the load loop: the new state is `Admit` of the old state and the record. |
| `Server.Registry.Load` | server.py:11-44 | An unreadable file leaves the state unchanged. Otherwise the state becomes `Ingest` of the records before the first incomplete one, and the outcome says whether all records were read. |
| `Server.Registry.Names` | server.py:46-55 | Returns one name per stored user, in iteration order, so the length equals the dictionary's size. Every stored user's name is listed. |
| `Server.Registry.FindByName` | server.py:57-73 | Returns the first user whose name matches up to case, and not-found exactly when no stored user matches. |
| `Server.Registry.Create` | server.py:75-121 | The reply is `CreateResponse` and the new state is `AfterCreate`. A body that is not JSON gets "Invalid JSON input". |

## Left out

- Flask plumbing is not modelled: the app, the route decorators, `jsonify`, `request.get_json` and the status codes as objects. A reply is a `Response` value, and a body that is not JSON is the input `None`.
- File I/O and JSON are not modelled: `open`, `json.load`, `json.dump` and the write to `users.json` after a successful create. `Registry.Load` takes the decoded list of records, or `None` for a missing or undecodable file. Of `save_users_to_file` only the list of records it writes is modelled (`Snapshot`).
- The `print` logging and the `__main__` start-up are not modelled.
- Python coercions are not modelled. Field values are strings, so `str(...)` on a non-string ID has no counterpart. A field counts as missing when it is absent or the empty string. The source's `not data.get(field)` also treats 0, None and empty containers as missing, which string-valued fields cannot express.
- Unicode is not modelled. `str.isdigit`, regex `\d` and `str.lower` are Unicode-aware in Python. The model accepts only the ASCII digits and lower-cases only ASCII letters.
- A request body that is valid JSON but not an object, and a file whose records are not objects, make the source raise inside Flask or the loader. The model's inputs are always string-to-string maps, so these cases are not modelled.
- Concurrent requests are not modelled. The source has no locking.

