# Machine event chain, machine and lead validators, image uploads

A Dafny model of the server routes at the heart of a machine-trading site.

- **The per-machine event log.**
  - The create route validates an event and reads the newest stored hash of that machine's chain. It then appends one row. The row carries that hash as `previous_hash`, plus the SHA-256 hex digest of the JSON text `{machine_id, event_type, description, data: null, previous_hash}`.
  - The verify route selects a machine's events oldest first and walks them with a running pointer. It stops at the first event whose stored pointer is wrong ("Kedjan är bruten") or whose stored hash does not match the recomputed one ("Hash mismatch"). Otherwise it reports the chain intact.
- **The machine create route.** It checks `year` and `hours` before inserting a machine.
- **The admin route that sets a lead's status.** It checks configuration, the shared admin key, the id, and a five-value allow-list.
- **The two image upload routes.** They check the form entry, its size and its content type, sanitise the file name, and build the storage path.

Modules:
- `Platform`: option and result types, and the environment.
- `JsText`: the JavaScript string operations used, namely white space, `trim`, `startsWith` and `Number.prototype.toString(radix)`.
- `HexDigest`: `computeHash`'s hex rendering, with a decoder.
- `CanonicalJson`: `JSON.stringify` of the hash payload, with a parser.
- `EventModel`: the `machine_events` rows and the linkage they are meant to satisfy.
- `ChainVerify`: the verifier's walk as a function, the route's loop as a method, and what a verdict means. The walk takes the payload hash as a parameter `hashOf`; the route's hash is `EventModel.EntryHasher(sha)`, and the lemmas about the walk's structure hold for any hash.
- `EventLog`: the two event routes over a `MachineEvents` table object.
- `MachineCreate`, `LeadStatus` and `Uploads`: the other routes.

Modelling choices:
- **SHA-256** (with UTF-8 encoding) is a function parameter `sha: string -> Digest`, where `Digest` is 32 bytes. No function from all strings to 32 bytes is injective. So no global injectivity is assumed: the lemmas that need it require "no collision" on the specific texts involved.
- **Database tables** are class fields:
  - `machine_events` is a sequence in insertion order, which is taken to be `created_at` order;
  - `machines` is a sequence;
  - `leads` is a map from id to row.
- **Failures of a database or storage call** are parameters: `readError`, `insertError`, `selectError`, `updateError` and `uploadError`. When one is present, the route answers with its message.
- **The clock** is a parameter: `Date.now()` becomes `now`, and `new Date().getFullYear()` becomes `nowYear`.
- **Environment variables and absent body fields** are `Option<string>`. JavaScript truthiness of a string (absent or empty) is `Platform.Truthy`.
- **The two sanitisers** use the same character class. `[^\w.\-]` (app/api/uploads/lead-image/route.ts:38) and `[^a-zA-Z0-9._-]` (app/api/uploads/machine-image/route.ts:36) denote the same set, so one `SafeName` serves both routes.

## Model

| member | source | states |
|---|---|---|
| Platform.OrEmpty | app/api/admin/leads/status/route.ts:12 | the fallback to `""` of an absent value is empty exactly when the value is absent or empty, and is the value otherwise |
| JsText.LeadingSpace | app/api/machines/events/create/route.ts:29 | the count of leading characters `trim()` removes: all of them are white space and the next character is not |
| JsText.TrailingSpace | app/api/machines/events/create/route.ts:29 | the count of trailing characters `trim()` removes: all of them are white space and the character before them is not |
| JsText.Trim | app/api/machines/events/create/route.ts:29-31 | `trim()` yields the slice that starts after the leading white space and is followed only by white space; the slice neither starts nor ends with white space; it is empty exactly when the input is all white space |
| JsText.NumberToString | app/api/machines/events/create/route.ts:11 | `toString(radix)` of a non-negative integer is a non-empty string of lower-case digits of that radix, with a leading zero only for 0 |
| JsText.NumberToStringRoundTrip | app/api/machines/events/create/route.ts:11 | reading the digits back in the same radix gives the number |
| JsText.NumberToStringInjective | app/api/uploads/machine-image/route.ts:38 | different numbers have different renderings |
| HexDigest.ByteToHexDigits | app/api/machines/events/create/route.ts:11 | `b.toString(16).padStart(2, "0")` is always exactly the two hex digits of the byte, high nibble first |
| HexDigest.Hex | app/api/machines/events/create/route.ts:10-12 | the joined rendering has two characters per byte, all lower-case hex digits |
| HexDigest.HexRoundTrip | app/api/machines/events/create/route.ts:10-12 | decoding the rendering gives the bytes back |
| HexDigest.HexDecodeRenders | app/api/machines/events/create/route.ts:10-12 | every string that decodes is the rendering of what it decodes to, so the rendering is a bijection onto its image |
| HexDigest.HexInjective | app/api/machines/events/create/route.ts:10-12 | different byte strings render differently |
| HexDigest.ComputeHash | app/api/machines/events/create/route.ts:6-13 | `computeHash` gives 64 lower-case hex digits |
| HexDigest.ComputeHashDecodes | app/api/machines/events/create/route.ts:6-13 | the 64 digits decode to the SHA-256 digest of the input |
| HexDigest.ComputeHashInjective | app/api/machines/events/create/route.ts:6-13 | two hashes are equal exactly when the digests are equal |
| CanonicalJson.EscapeChar | app/api/machines/events/create/route.ts:63 | every character is written as at least one character; `ParseEscapedChar` reads each escape back |
| CanonicalJson.EscapeCharVerbatim | app/api/machines/events/create/route.ts:63 | a character is written as itself exactly when it is not a quote, a backslash or a control character; every other character becomes a backslash escape of two to six characters |
| CanonicalJson.ParseEscapedChar | app/api/machines/events/create/route.ts:63 | one escaped character followed by any text reads back as that character followed by what the text reads as |
| CanonicalJson.Quote | app/api/machines/events/create/route.ts:63 | a JSON string literal: the escaped characters between two quotes; `QuoteParses` reads it back |
| CanonicalJson.ParseEscaped | app/api/machines/events/create/route.ts:63 | `JSON.stringify`'s string escaping (quote, backslash, the short escapes and `\u00XX` for other control characters) is undone by a JSON string parser |
| CanonicalJson.QuoteParses | app/api/machines/events/create/route.ts:63 | a string literal followed by any text parses to the string and exactly that text |
| CanonicalJson.Stringify | app/api/machines/events/create/route.ts:55-63 | the payload as JSON text with the keys in the order machine_id, event_type, description, data, previous_hash and `data: null`; `StringifyRoundTrip` parses it back |
| CanonicalJson.StringifyRoundTrip | app/api/machines/events/create/route.ts:55-63 | the serialised hash payload, with its fixed key order and `data: null`, parses back to the same payload |
| CanonicalJson.StringifyInjective | app/api/machines/events/create/route.ts:55-63 | two payloads with the same serialisation are equal |
| EventModel.ChainOf | app/api/machines/events/verify/route.ts:36-40 | selecting a machine's events yields only events of that machine, and no more rows than the table holds |
| EventModel.ChainOfAppend | app/api/machines/events/create/route.ts:65-74 | inserting a row extends only its own machine's chain, by exactly that row, and leaves every other machine's chain unchanged |
| EventModel.ChainOfConcat | app/api/machines/events/verify/route.ts:36-40 | the selection of a machine's events from a table split in two is the selection from the first part followed by that from the second |
| EventModel.MachineIdChangeDropsRow | app/api/machines/events/verify/route.ts:36-40 | changing the machine id of one of a machine's rows removes exactly that event from the machine's selected list and keeps the others in order |
| EventModel.EntryHash | app/api/machines/events/create/route.ts:63 | the entry hash of a payload is 64 lower-case hex digits |
| EventModel.EntryHashCollides | app/api/machines/events/verify/route.ts:59-69 | equal entry hashes mean equal payloads, unless SHA-256 collides on the two serialisations |
| EventModel.LinkedExtension | app/api/machines/events/create/route.ts:52-74 | a well-linked chain extended by a row that points at its newest hash and carries its own payload hash is still well linked |
| EventModel.HashDiffersFromPointer | app/api/machines/events/verify/route.ts:77 | in a well-linked chain without collisions between neighbours, no event's hash equals the pointer it stores |
| ChainVerify.Normalize | app/api/machines/events/verify/route.ts:50 | the stored pointer with its fallback to null is null exactly for a null or empty pointer, and the pointer itself otherwise |
| ChainVerify.WalkFrom | app/api/machines/events/verify/route.ts:46-78 | a walk resumed at position i that reports a broken pointer or a hash mismatch names a position from i to the end of the list, so the reported event exists |
| ChainVerify.Walk | app/api/machines/events/verify/route.ts:46-48 | the walk starts with `prev = null` and any event it reports lies in the list; what the verdict means is `VerdictLocatesFirstFault` |
| ChainVerify.VerifyChain | app/api/machines/events/verify/route.ts:46-79 | the route's loop (pointer check, hash recomputation, `prev = ev.hash`, early return) computes the specification walk |
| ChainVerify.WalkSkipsAccepted | app/api/machines/events/verify/route.ts:48-78 | past a prefix of accepted events, the running pointer is the last stored hash |
| ChainVerify.VerdictLocatesFirstFault | app/api/machines/events/verify/route.ts:48-84 | intact exactly when every event passes both checks; a broken or mismatch verdict names an event that fails that check while all earlier events pass |
| ChainVerify.LinkedAccepted | app/api/machines/events/verify/route.ts:50-75 | every event of a chain as the writer leaves it passes both checks of the verifier |
| ChainVerify.WellLinkedVerifies | app/api/machines/events/verify/route.ts:59-69 | a chain written only by the create route verifies as intact; the two routes hash the same payload |
| ChainVerify.TamperReportedAt | app/api/machines/events/verify/route.ts:48-75 | changing the event type or description of event i in an intact chain is reported as a hash mismatch at exactly event i, unless SHA-256 collides |
| ChainVerify.RemovalReportedAtSuccessor | app/api/machines/events/verify/route.ts:50-56 | deleting an event that has a successor is reported as a broken chain at that successor |
| ChainVerify.TailRemovalUndetected | app/api/machines/events/verify/route.ts:46-84 | deleting the newest event leaves a chain that verifies as intact |
| ChainVerify.VerdictIgnoresData | app/api/machines/events/verify/route.ts:59-65 | the stored `data` never influences the verdict |
| ChainVerify.IdPrefix | app/api/machines/events/verify/route.ts:54 | `slice(0, 8)` is the first eight characters, or the whole id when shorter |
| ChainVerify.ReportFor | app/api/machines/events/verify/route.ts:48-84 | `verified` is true exactly for an intact verdict; the message is "Inga events att verifiera." for an empty list, the intact message otherwise, and the broken or mismatch message naming the failing event's id prefix |
| EventLog.ValidateEvent | app/api/machines/events/create/route.ts:29-36 | the first field that is empty after trimming, in the order machine_id, event_type, description, is refused; on success the fields are trimmed and non-empty and `data` is kept raw |
| EventLog.NewestHash | app/api/machines/events/create/route.ts:41-52 | the pointer for a new event is null for a machine without events and otherwise the stored hash of the machine's newest event |
| EventLog.NewestHashAfterAppend | app/api/machines/events/create/route.ts:41-74 | after an insert the next read of that machine's newest hash gives the inserted row's hash, and every other machine's newest hash is unchanged |
| EventLog.NewRow | app/api/machines/events/create/route.ts:41-74 | the inserted row has the trimmed fields and raw data; its pointer is null for a machine without events and otherwise the hash of the machine's newest event; its hash decodes to the digest of the serialised payload |
| EventLog.AppendKeepsChainsLinked | app/api/machines/events/create/route.ts:40-74 | an append keeps every machine's well-linked chain well linked |
| EventLog.AppendPreservesLinkage | app/api/machines/events/create/route.ts:40-74 | if every machine's chain is well linked before an append, every machine's chain is well linked after it |
| EventLog.AppendThenVerify | app/api/machines/events/create/route.ts:54-63 | after an append to a well-linked chain, verifying that machine reports it intact |
| EventLog.MachineEvents.Post | app/api/machines/events/create/route.ts:15-80 | 500 without configuration, 400 naming the first empty field, 500 on a failed read or insert, all with the table unchanged; otherwise exactly the new row is appended; the linkage invariant is preserved |
| EventLog.MachineEvents.Get | app/api/machines/events/verify/route.ts:15-84 | 500 without configuration, 400 without a machine id, 500 on a failed select; otherwise the report of the walk over that machine's events, which is "verified" whenever the linkage invariant holds; it modifies nothing |
| MachineCreate.ValidateYear | app/api/machines/create/route.ts:28-44 | null, absent or `""` gives no year; a non-finite or non-integer value is refused; otherwise a year from 1950 through next year is accepted unchanged and any other year is refused with that range |
| MachineCreate.ValidateHours | app/api/machines/create/route.ts:47-63 | null, absent or `""` gives no hours; a non-finite or negative value is refused; above 200000 is refused; otherwise accepted unchanged |
| MachineCreate.ValidateMachine | app/api/machines/create/route.ts:27-63 | the year is checked first, so a request bad in both reports the year; both must pass to accept |
| MachineCreate.BoundsInclusive | app/api/machines/create/route.ts:37-61 | 1950, next year, 0 hours and 200000 hours are accepted; 1949, the year after next and 200000.5 hours are refused |
| MachineCreate.Machines.Create | app/api/machines/create/route.ts:9-86 | 500 without configuration and 400 on a validation error, both with no insert; 500 on an insert failure; otherwise exactly one row with the validated year and hours is added and returned |
| LeadStatus.Authorized | app/api/admin/leads/status/route.ts:12-25 | with `ADMIN_KEY` unset or empty every caller passes; otherwise exactly a present, non-empty header equal to the key passes |
| LeadStatus.GateStatusUpdate | app/api/admin/leads/status/route.ts:6-39 | in this order: 500 without configuration; 401 when a non-empty admin key differs from the header; 400 for an id that is empty after trimming; 400 for a trimmed status outside the five allowed; otherwise the trimmed id and status |
| LeadStatus.WithStatus | app/api/admin/leads/status/route.ts:43-47 | the lead with that id gets the new status and keeps every other column; no other lead changes and none is added or removed |
| LeadStatus.Leads.SetStatus | app/api/admin/leads/status/route.ts:8-54 | a refused request and a failed update leave the table unchanged; otherwise only the status of the lead with that id changes, and the reply carries the id and status, or null when no lead has that id |
| Uploads.CollapseSpaceRuns | app/api/uploads/machine-image/route.ts:35 | after `replace(/\s+/g, "-")` no white space remains and the name is no longer |
| Uploads.CollapseWithoutSpace | app/api/uploads/machine-image/route.ts:35 | a name without white space is unchanged by the replacement |
| Uploads.CollapseRun | app/api/uploads/machine-image/route.ts:35 | a white-space run of any length becomes a single `-` |
| Uploads.LeadingSpaceOfRun | app/api/uploads/machine-image/route.ts:35 | a white-space run followed by text that does not start with white space is exactly the leading white space the replacement consumes |
| Uploads.CollapseLeadingRun | app/api/uploads/machine-image/route.ts:35 | a white-space run at the start of a name becomes one `-` followed by the replacement of the rest |
| Uploads.KeepSafe | app/api/uploads/machine-image/route.ts:36 | after the second replacement only `[a-zA-Z0-9._-]` remains, it is no longer than before, and a name already in that class is unchanged |
| Uploads.KeepSafeChar | app/api/uploads/machine-image/route.ts:36 | a single character is kept exactly when it is in the safe class |
| Uploads.KeepSafeAppend | app/api/uploads/machine-image/route.ts:36 | the replacement works character by character: the result for a concatenation is the concatenation of the results, so the safe characters survive in order |
| Uploads.KeepSafeNoneSafe | app/api/uploads/machine-image/route.ts:36 | a name with no safe character is emptied |
| Uploads.SafeName | app/api/uploads/machine-image/route.ts:34-36 | the sanitised name contains only `[a-zA-Z0-9._-]`, and an empty name becomes `"image"` |
| Uploads.SafeNameFixedPoints | app/api/uploads/machine-image/route.ts:34-36 | a name is left unchanged exactly when it is non-empty and already in the safe class |
| Uploads.SafeNameIdempotent | app/api/uploads/lead-image/route.ts:38 | sanitising a non-empty sanitised name changes nothing, and an empty one becomes `"image"` the second time |
| Uploads.SafeNameCanBeEmpty | app/api/uploads/machine-image/route.ts:34-36 | the `"image"` fallback comes before sanitising, so every non-empty name with neither a safe character nor white space becomes empty |
| Uploads.SafeNameDropsUnsafe | app/api/uploads/machine-image/route.ts:34-36 | an unsafe character that is not white space is dropped from between two safe parts, as in "photo(1).jpg" becoming "photo1.jpg" |
| Uploads.SafeNameJoinsWords | app/api/uploads/lead-image/route.ts:38 | safe words joined by a white-space run come out joined by a single `-` |
| Uploads.ObjectPath | app/api/uploads/machine-image/route.ts:38 | the path starts with the folder, and everything after the folder is in the safe class, so the object lands directly in that folder |
| Uploads.ObjectPathDetermines | app/api/uploads/machine-image/route.ts:38 | a path determines its timestamp and sanitised name, so uploads in different milliseconds never target the same object |
| Uploads.TrimmedConfigured | app/api/uploads/lead-image/route.ts:7-9 | the lead route is configured exactly when neither value is absent or all white space, which implies the untrimmed check the other routes make |
| Uploads.MachineImageUpload | app/api/uploads/machine-image/route.ts:9-53 | 500 without configuration; 400 when the entry is not a file; 400 for a type not starting with `image/`; no size limit; otherwise the upload's failure message as a 500, or the object at `new/<now>-<safe name>` |
| Uploads.LeadImageUpload | app/api/uploads/lead-image/route.ts:6-53 | 500 when the trimmed configuration is empty, before the form is read; 400 for no entry or an empty text entry; 400 for a file above 8 MiB, checked before its type; 400 for a non-image type or a non-empty text entry; otherwise the upload's failure message as a 500, or the object at `leads/<now>-<safe name>` |
| Uploads.LeadImageSizeBoundary | app/api/uploads/lead-image/route.ts:30-33 | exactly 8 MiB is accepted and one byte more is refused |

## Left out

- SHA-256 itself, `TextEncoder`'s UTF-8 encoding and the `crypto.subtle` promise plumbing: the digest is an abstract function of the text.
- `JSON.stringify` of strings holding lone UTF-16 surrogates, which it escapes as `\uXXXX`: strings here are sequences of Unicode scalar values, so there are none.
- `String(...)` coercion of request fields that are numbers, booleans or objects: body fields are strings or absent.
- `Number(...)` parsing of `year` and `hours`: the caller supplies the parsed `JsNumber`. Finite JavaScript numbers are modelled as reals, so rounding to doubles is not modelled.
- A malformed request body, which makes `req.json()` or `req.formData()` throw and the route answer 500 from its catch block.
- Events with equal `created_at`: the table is kept in insertion order and that order is taken as the time order.
- Two concurrent appends to one machine, which can both read the same newest hash and fork the chain: one writer at a time is modelled.
- Rows written to `machine_events` by other routes (valuation rows with null pointer and hash), and edits of stored rows: these are outside the writer. Their effect on the verifier is what `TamperReportedAt`, `RemovalReportedAtSuccessor`, `TailRemovalUndetected` and `VerdictLocatesFirstFault` describe. A changed `machine_id` is not a tampered event: the row leaves its machine's list (`MachineIdChangeDropsRow`), so it reads as a deletion.
- `IdPrefix` counts characters (Unicode code points), while `slice(0, 8)` counts UTF-16 code units; the two differ for ids with characters outside the Basic Multilingual Plane.
- The database-assigned id and `created_at` of a new machine, and the columns `select` returns: a `Machines` row holds only the inserted columns.
- The bucket name, the uploaded bytes, `upsert: false` and the public URL of an upload: the model stops at the storage path and the upload's success or failure.
- Supabase client construction and query building: each query is a read or update of the in-memory table with an injected failure.
