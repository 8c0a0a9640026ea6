# crm-backend: password-reset codes and tickets, in Dafny

This project models two parts of the crm-backend Django service.

**Password reset.**
- The `VerificationCode` table and its methods `is_valid`, `mark_as_used` and `generate_code`. A code expires five minutes after it is issued.
- The two views of the reset flow:
  - `GenerateVerificationCodeView.post` issues a six-digit code for a registered email and supersedes that email's older codes.
  - `VerifyCodeView.post` takes a code and a new password, sets the password of the code's owner and marks the code used.

**Tickets.**
- The `Ticket` record and the constraints its `ModelSerializer` enforces on each writable field.
- The create view. It lower-cases `source`, fills in `status` "open" and `priority` "medium", and sets the requester as owner.
- The update view. It lower-cases `source`, `status` and `priority` when present and applies a full or partial validation.
- The list query. It filters `status` and `priority` ignoring case and `owner` exactly, then orders newest first.

Every view is a pure function: the current tables plus the request's fields in, the next tables plus the reply out.

Modules:
- `Results`: `Option` and `Result`.
- `Text`: Python's `str.strip()` (with Python's whitespace set), ASCII `str.lower()`, and `str(n)` for naturals.
- `VerificationCodes`: the code table, its invariants and its operations.
- `PasswordReset`: the two reset views.
- `TicketFields`: the ticket record, the serializer's field rules and `Validate`.
- `TicketViews`: the create, update and list views.

Modelling choices:
- Time is an integer count of seconds. The clock value `now` is a parameter.
- The number that `random.randint` draws is a parameter `n` with `100000 <= n <= 999999`.
- A request field that is absent reads as `""`, as `request.data.get(key, '')` does.
- Users of the reset flow are a map from email to stored password. Ticket owners are a set of user keys.
- Tables are sequences. A verification record is named by its position. A ticket is named by its `id` key, which `TicketViews.IndexOf` looks up as `get_object()` does.
- A ticket request body is a map from field keys to `Str(s)` or `Null`. JSON values of other types are left out.
- The reset views read their fields as plain strings. A JSON `null` there is left out (see below).
- A Dafny `char` is a Unicode scalar value, so a request string that holds a lone surrogate cannot be written in the model. The serializer refuses such strings with 400; that rejection is not modelled (see "Left out"). Its U+0000 check is modelled.

Three behaviours of the code worth noting:
- The `code` column is `unique=True` across all records, not only among unused ones. So `generate_code` fails with an integrity error when the drawn number is already stored anywhere. The `filter(...).update(is_used=True)` before it has already run under autocommit. `VerificationCodes.GenerateCode` keeps that invalidation even when creation fails.
- With no `status` in the body, a created ticket gets "open", which the view writes, not the column default "new". The test at crm/ticket/tests.py:50 expects "new". `TicketViews.CreateBypassesModelDefaults` proves that the view's value wins.
- `get_object()` runs inside the update view's `try`, so a missing ticket is answered with 400, not 404. `TicketViews.Update` returns `TicketNotFound` for this case, and `TicketViews.ErrorReport` documents that it maps to 400.

## Model

| member | source | states |
|---|---|---|
| Text.Strip | crm/user/views.py:73 | The stripped string is no longer than the input. It is empty exactly when the input is all whitespace. Otherwise its first and last characters are not whitespace. |
| Text.StripIdempotent | crm/user/views.py:140-141 | Stripping an already stripped value changes nothing. |
| Text.StripOfTrimmed | crm/user/views.py:140 | A non-empty string with non-whitespace ends is its own strip. |
| Text.StripIgnoresPadding | crm/user/views.py:140-141 | Whitespace added on either side of a value does not change what the view reads. |
| Text.Lower | crm/ticket/views.py:69 | `lower()` keeps the length. Each capital A–Z becomes its own small letter, and every other character is kept. |
| Text.LowerFixesExactlyLowercase | crm/ticket/views.py:138-147 | Lower-casing changes a string exactly when it holds an upper-case letter. Lower-casing twice equals lower-casing once. |
| Text.StripLowerCommute | crm/ticket/views.py:69 | Trimming after lower-casing equals lower-casing after trimming. |
| Text.StrippedLowerHasNoUpper | crm/ticket/views.py:69 | A lower-cased then trimmed value has no upper-case letter. |
| Text.Decimal | crm/user/models.py:57 | `str(n)` is a non-empty string of digits. It starts with '0' only for zero. |
| Text.ParseDecimalInvertsDecimal | crm/user/models.py:57 | Reading the digits of `str(n)` back gives `n`. |
| Text.DecimalLength | crm/user/models.py:57 | A number with `10^(k-1) <= n < 10^k` prints as exactly `k` digits. |
| VerificationCodes.IsValid | crm/user/models.py:36-42 | A code is valid exactly when it is unused and at most five minutes (300 s) have passed since its creation; the deadline itself still counts. |
| VerificationCodes.UsedIsNeverValid | crm/user/models.py:36-39 | A used record is invalid at every instant. |
| VerificationCodes.UnusedValidUntilDeadline | crm/user/models.py:33-42 | An unused record is valid exactly up to `created_at` + 300 s. It is valid at the deadline and invalid one second later. |
| VerificationCodes.MarkAsUsed | crm/user/models.py:44-47 | The chosen record becomes used. Its other fields and every other record are unchanged. |
| VerificationCodes.MarkAsUsedIdempotent | crm/user/models.py:44-47 | Marking a record used twice equals marking it once. |
| VerificationCodes.OnlyMarksUsedTransitive | crm/user/models.py:44-53 | Two steps that each only set `is_used` together only set `is_used`. |
| VerificationCodes.MarkAsUsedOnlyMarksUsed | crm/user/models.py:44-47 | `mark_as_used` never reopens or rewrites a record. |
| VerificationCodes.MarkAsUsedPreservesInvariant | crm/user/models.py:28 | Marking used keeps these properties: codes unique, at most one unused code per email, every code six digits. |
| VerificationCodes.LatestUnused | crm/user/views.py:157-160 | The lookup finds nothing exactly when no unused record carries the code. Otherwise it returns an unused carrier, and no unused carrier is newer. |
| VerificationCodes.LatestUnusedIsTheOnlyCarrier | crm/user/models.py:28 | With unique codes, the found record is the only one carrying the code. |
| VerificationCodes.InvalidateFor | crm/user/models.py:53 | Every record of the email is marked used. Every other record is unchanged. |
| VerificationCodes.GenerateCode | crm/user/models.py:50-60 | The email's old records are all used and other emails' records are untouched. A new record `(email, str(n), now, unused)` is appended exactly when `str(n)` is not already stored. |
| VerificationCodes.GeneratedCodeIsSixDigits | crm/user/models.py:57 | `str(randint(100000, 999999))` has six digits, has no leading zero, and reads back as the drawn number. |
| VerificationCodes.GenerateLeavesOneUnused | crm/user/models.py:50-60 | After a successful generation the new record is the email's only unused record. |
| VerificationCodes.GeneratePreservesInvariant | crm/user/models.py:50-60 | Generation keeps the table invariants, whether or not it creates a record. |
| PasswordReset.StatusCode | crm/user/views.py:72-193 | The not-found failures are 404. Generation failures and the uncaught exception are 500. Exactly the other failures are 400. |
| PasswordReset.IssueAsWritten | crm/user/views.py:72-95 | As written, the view never issues a code and never changes state. A blank email is refused as required, an unknown one as not registered, and a registered one fails with the uncaught `NameError`. |
| PasswordReset.IssueAsWrittenFailsRegisteredUser | crm/user/views.py:82-90 | A registered user asking for a code gets the server error. |
| PasswordReset.Issue | crm/user/views.py:72-118 | Passwords never change and codes are only marked used. Each early refusal leaves the state as it was. A code is issued exactly when the email is non-blank, registered and well formed and the drawn code is free. The issued code is `str(n)` stored after the email's invalidated records. A collision is answered with the generation failure (500) and leaves only the invalidation. |
| PasswordReset.IssueSupersedes | crm/user/models.py:52-53 | After an issue the new record is the email's only unused record, and other emails' records are untouched. |
| PasswordReset.IssuePreservesInvariant | crm/user/views.py:97-99 | Issuing keeps the table invariants. |
| PasswordReset.Consume | crm/user/views.py:139-187 | Every refusal leaves the state as it was, and each reply holds exactly under its condition. "Required" means a blank input. "Too short" means a stripped password under 8 characters. "Invalid or expired" means the inputs pass but no record with the code is valid. "User account not found" (404) means the newest unused record with the code is valid but its email has no user. Success sets the owner's password to the stripped one and marks a valid record carrying the code used. |
| PasswordReset.ConsumeUnknownUserKeepsCode | crm/user/views.py:169-175 | A valid code whose email has no user gets "User account not found", and the code stays unused. |
| PasswordReset.ConsumeSucceedsIff | crm/user/views.py:139-187 | With unique codes, a reset succeeds exactly when the inputs pass and some record with the code is valid and belongs to a registered email. |
| PasswordReset.ConsumeExpiryBoundary | crm/user/views.py:162 | A fresh code is accepted at `created_at` + 300 s and refused at + 301 s. |
| PasswordReset.ConsumeIsSingleUse | crm/user/views.py:181-182 | Once a code has reset a password, every later attempt with it fails, at any time and with any password. |
| PasswordReset.ConsumePreservesInvariant | crm/user/views.py:155-187 | Consuming keeps the table invariants and only marks records used. |
| TicketFields.CleanOwner | crm/ticket/models.py:13 | An absent `owner` is left out of the validated data. A null or empty `owner` becomes a null owner. A key naming a known user is kept as that user. Any other key is refused with `UnknownUser`. |
| TicketFields.ValidatePhoneNumber | crm/ticket/serializers.py:18-20 | The field hook accepts every phone number and returns it unchanged. |
| TicketFields.CleanTextCases | crm/ticket/serializers.py:12-16 | A trimmed string is rejected exactly when it breaks the field's rule: blank where blank is not allowed, over the maximum or under the minimum length, or holding U+0000. Otherwise it is kept. |
| TicketFields.CleanCharCases | crm/ticket/models.py:8-14 | One character field is skipped, rejected as required, rejected as null, or kept stripped. Each outcome is tied to its condition. |
| TicketFields.CleanFieldCases | crm/ticket/serializers.py:4-20 | Per field: an absent field is skipped, or is an error exactly when it is required in a full validation. A supplied field is rejected exactly when its value is unacceptable. A kept value is the cleaned input and meets its rule. A kept owner is a known user. |
| TicketFields.Validate | crm/ticket/serializers.py:4-20 | On success the validated data holds exactly the supplied writable fields, each cleaned and meeting its column rule. The owner is a known user, and a full validation holds `name`, `description` and `source`. A failure names exactly the fields that fail: a supplied value that is unacceptable, or a required field missing from a full validation, which is reported as `Required`. |
| TicketFields.ValidateAcceptsExactly | crm/ticket/serializers.py:4-20 | Validation succeeds exactly when the request meets the field-by-field reference definition `Acceptable`. |
| TicketFields.ValidateIgnoresReadOnly | crm/ticket/serializers.py:11 | Requests that agree on the writable fields validate alike. `id`, `created_at`, `updated_at` and unknown keys have no effect. |
| TicketFields.NewTicket | crm/ticket/models.py:7-16 | A new ticket holds the validated `name`, `description` and `source`. It holds `status` and `priority` as validated, or the column defaults "new" and "low" when not given. It holds the given owner and the phone number or null. It gets the fresh key, and both timestamps are the save instant. |
| TicketFields.ApplyTo | crm/ticket/views.py:153-155 | Saving over an existing ticket keeps its key and `created_at`, and stamps `updated_at` with the save instant. |
| TicketFields.ApplyToTouchesOnlyGiven | crm/ticket/views.py:153-155 | Saving overwrites exactly the fields present in the validated data, with their validated values; a null is written only to the nullable `owner` and `phone_number`. Every other field keeps its value. |
| TicketFields.NewTicketWellFormed | crm/ticket/models.py:7-16 | A ticket saved from a full validation meets every column constraint: name 3..255 characters, non-empty description, status/source/priority 1..20 characters, phone number at most 20. |
| TicketFields.ApplyToPreservesWellFormed | crm/ticket/models.py:7-16 | Saving validated data over a well-formed ticket keeps it well formed. |
| TicketFields.SavedFieldsWellFormed | crm/ticket/models.py:8-14 | Each validated value meets its column's length and non-emptiness limits. |
| TicketViews.LowerValue | crm/ticket/views.py:69 | `.lower()` succeeds exactly on strings. On null it is the `AttributeError` case. |
| TicketViews.LowerKey | crm/ticket/views.py:138-147 | Lower-casing a present key changes only that key and fails exactly when its value is null. |
| TicketViews.DefaultKey | crm/ticket/views.py:72-77 | An absent key gets the default. Present keys keep their values. |
| TicketViews.NormalizeForCreate | crm/ticket/views.py:65-77 | Fails exactly on a null `source`. Otherwise `source` is lower-cased, `status` and `priority` are kept or set to "open" and "medium", and nothing else changes. |
| TicketViews.Create | crm/ticket/views.py:55-116 | A refusal stores nothing. Success appends one well-formed ticket. The ticket has the requester as owner whatever the body says, the trimmed `name` and `description`, a lower-cased trimmed `source`, `status` and `priority` as supplied or defaulted, and the fresh key and timestamps; the key must not be stored yet. A validation failure is answered with the serializer's error report, which names exactly the failing fields of the normalised request. |
| TicketViews.CreateSucceedsIff | crm/ticket/views.py:65-80 | Creation succeeds exactly when `source` is not null and the normalised body passes full validation. |
| TicketViews.CreateReportsMissingFields | crm/ticket/tests.py:52-67 | A body without `description` and `source` is refused with an error on each. |
| TicketViews.CreateRejectsShortName | crm/ticket/models.py:8 | A name under three characters after trimming is refused with `TooShort(3)`, and nothing is stored. |
| TicketViews.CreateBypassesModelDefaults | crm/ticket/views.py:71-77 | Without `status` and `priority` a ticket gets "open" and "medium", never the column defaults "new" and "low". |
| TicketViews.NormalizeForUpdate | crm/ticket/views.py:134-147 | Fails exactly when one of `source`, `status` or `priority` is present and null. Otherwise those that are present are lower-cased, no key is added, and every other key is kept. |
| TicketViews.IndexOf | crm/ticket/views.py:132 | `get_object()` finds nothing exactly when no ticket has the key. Otherwise it finds the first ticket with it. |
| TicketViews.Update | crm/ticket/views.py:126-193 | A refusal changes nothing. A missing ticket gives `TicketNotFound`, and a null `source`/`status`/`priority` gives `NotAString`. On success exactly the addressed ticket is replaced: supplied fields become the trimmed values, lower-cased for `source`/`status`/`priority`; the other fields, the key and `created_at` are kept; `updated_at` is stamped. A well-formed ticket stays well formed. A full update missing a required field reports `Required` on it. A validation failure is answered with the serializer's error report, which names exactly the failing fields of the normalised request. |
| TicketViews.UpdateSucceedsIff | crm/ticket/views.py:126-155 | An update succeeds exactly when the ticket exists, no lower-cased field is null and the normalised body passes the full or partial validation. |
| TicketViews.CreateKeepsIdsUnique | crm/ticket/models.py:7 | Creating under a fresh key keeps the ticket keys distinct. |
| TicketViews.UpdateKeepsIdsUnique | crm/ticket/views.py:153-155 | An update keeps the ticket keys distinct. |
| TicketViews.UpdateOnlyStatus | crm/ticket/views.py:142-155 | A partial update with only an acceptable `status` changes only `status` (trimmed, lower-cased) and `updated_at`. |
| TicketViews.Matches | crm/ticket/views.py:29-42 | With no query parameter every ticket matches. A ticket with a different status or priority, ignoring case, does not match. A matching ticket has the queried owner. |
| TicketViews.MatchesEachParameter | crm/ticket/views.py:29-42 | The parameters narrow independently: a ticket matches a query exactly when it matches each of its status, owner and priority parameters alone. |
| TicketViews.Filter | crm/ticket/views.py:27-42 | Each ticket appears as often as stored when it matches every given parameter, and not at all otherwise. |
| TicketViews.Insert | crm/ticket/views.py:45 | Inserting into a newest-first list keeps it newest first and adds exactly the one ticket. |
| TicketViews.SortNewestFirst | crm/ticket/views.py:45 | The result is newest first and a permutation of the input. |
| TicketViews.List | crm/ticket/views.py:20-45 | The list is ordered by `created_at` descending and holds every matching ticket as often as stored, and nothing else. |
| TicketViews.ListMembership | crm/ticket/views.py:27-42 | A ticket is listed exactly when it is stored and matches. With no parameters every stored ticket is listed. |
| TicketViews.ListIgnoresCase | crm/ticket/views.py:30-42 | `status` and `priority` parameters that differ only in letter case give the same list. |

## Left out

- Registration, login, JWT issuance, the profile view and URL routing: outside the reset and ticket flows.
- Authentication: every ticket request is taken to come from an authenticated user, the `requester`. The 401/403 answers to anonymous requests are not modelled.
- The email format check is a boolean parameter of `PasswordReset.Issue`. Django's validator is not modelled.
- Password hashing: the model stores the new password itself where `set_password` stores a hash.
- Randomness and clocks: the drawn number and `now` are parameters.
- The reply bodies: the messages, the `verification_url` and the serialized data. Only the failure kind (with its status through `PasswordReset.StatusCode` for the reset views) and the issued code or the stored ticket are modelled. The email in `PasswordReset.Consume`'s success reply is the model's own record of which account was reset; the source's reply carries only a status and a message.
- Success statuses: the 200 and 201 answers are not modelled; a success is an `Ok` reply. Every ticket-view failure is answered with 400; the model tells them apart by `ErrorReport` and carries no status code for them.
- The UUID primary key and the never-written `reset_token` column of `VerificationCode`.
- Logging and database concurrency. Each view runs alone, and every statement commits immediately.
- Microsecond timestamps: time is counted in whole seconds, so `UnusedValidUntilDeadline` speaks of the last valid second.
- Text.Lower: folds ASCII A–Z only, where Python's `lower()` folds all of Unicode.
- Query-string decoding and JSON values other than strings and null: request values are `Str` or `Null`.
- The order among tickets with equal `created_at`: the database leaves it unspecified. `TicketViews.List` fixes one order but states only the ordering by time and the contents.
- `CustomUser.MultipleObjectsReturned` cannot arise, because `email` is unique, so it is not modelled. Other exceptions under the 500 handlers are not modelled either. `CustomUser.DoesNotExist` is modelled as `UserAccountNotFound`.
- A JSON `null` for `email`, `code` or `new_password` is not modelled. The source's `.strip()` then raises `AttributeError` outside any `try`, which gives a 500. `PasswordReset.Issue` and `PasswordReset.Consume` take strings only.
- TicketFields.CleanTextCases: when a value breaks several validators the serializer lists every message. The model reports only the first, in validator order. Acceptance is the same either way.
- TicketFields.CleanFieldCases: an `owner` key is compared as the exact string given. The serializer converts it to an integer first, so "01" or "+1" would name user 1 there but is `UnknownUser` here. Only canonical key spellings are modelled.
- TicketFields.CleanOwner: same restriction: only canonical decimal spellings of a user key are modelled.
- TicketViews.Filter: the `owner` parameter is matched as an exact string. The source converts it to an integer, so other spellings of the same key also match there. A non-numeric value raises `ValueError` outside any `try` and gives a 500. The model returns an empty list for it instead.
- TicketFields.ValidatePhoneNumber: the hook returns its input unchanged and states nothing beyond that.
- Lone surrogates: a JSON string may decode to one, and the serializer then answers 400. A Dafny `char` cannot hold one, so such requests are not representable and that rejection is not modelled.
- TicketViews.Matches: the `owner` parameter is compared as an exact string, for the reason given under `TicketViews.Filter`.

## Findings

| source | as written | input that shows it | evidently intended | confidence | as-written member | corrected member |
|---|---|---|---|---|---|---|
| crm/user/views.py:88-95 | `validate_email` and `ValidationError` are used but never imported, so for every registered email the format check raises `NameError`. It is raised outside the generation `try` and answered with a server error. No code is ever issued. | email "ann@example.com" belonging to a user | validate the address, answer 400 when malformed, otherwise issue a code | high, not executed | PasswordReset.IssueAsWrittenFailsRegisteredUser | PasswordReset.Issue |
