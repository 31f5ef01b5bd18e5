# CV evaluator — a verified model of its rules

The CV evaluator is a small web application. Its backend takes a CV and a
job description as PDF uploads and asks a language model to compare them.
It then repairs the model's answer and attaches a status to each report
section. It also keeps an in-memory list of user accounts for signup and
login. Its frontend accepts the uploads, sends them off, appends each report
to a history, and lets the user search and sort that history.

This project models, in Dafny, the rules of that application that do not
depend on I/O:

- `Classifier` — the section-status classifier `determineStatus`. It uses
  JavaScript truthiness: the empty string and a missing value are falsy, and
  every array is truthy. List content is stringified by joining with commas.
- `Analysis` — the normalisation inside `analyzeCV`. A "Missing Keywords"
  string is split on runs of commas and white space; empty pieces are dropped
  and each piece is trimmed. Then every section receives its status. The
  parsed answer of the language model is the input.
- `UploadName` — the multer filename sanitiser and the `Date.now()-` prefix.
  The clock reading is a parameter.
- `Accounts` — the signup and login endpoints over `DATABASE.users`. The
  scrypt derivation is an injective constructor, and the random salt is a
  parameter.
- `Dashboard` — the history search (case-insensitive substring match) and
  the optional stable sort by score.
- `Evaluator` — the upload page: the file-acceptance test, the missing-file
  guard of `evaluateCV`, and the history append.
- `JsString`, `Report`, `Wrappers` — the JavaScript string operations the
  rules rely on, the shared report data model (a description is
  `Text | List | Absent`), and `Option`/`Result`.

Two details of the code are easy to misread; the model follows the code:

- An empty keyword list is truthy, so `determineStatus` does not classify it
  `error` by emptiness (`Classifier.EmptyListIsNotFalsy`).
- A "Missing Keywords" description that already arrives as a list is left
  exactly as it is; only a string is split and cleaned
  (`Analysis.RepairDescription`).

Two consequences of the code are proved rather than assumed:

- After a keyword string is repaired, the phrase "no missing" can never be
  found. The tokens are joined with commas and hold no spaces, so only
  "none" can make such a section a success
  (`Analysis.RepairedTextNeverSaysNoMissing`).
- A keyword string with no keyword in it becomes an empty list, which is
  classified `warning`, not `error` (`Analysis.BlankKeywordTextIsWarning`).

## Model

| member | source | states |
|---|---|---|
| `JsString.Lower` | cv-evaluator-backend/server.js:206 | lower-casing keeps the length, maps each letter `A`–`Z` to its lower-case partner and leaves every other character as it is |
| `JsString.LowerIdempotent` | cv-evaluator-backend/server.js:206 | lower-casing an already lower-cased text changes nothing |
| `JsString.ContainsIffOccurs` | cv-evaluator-backend/server.js:212 | `includes` holds exactly when the needle occurs at some index of the text |
| `JsString.TrimIsCore` | cv-evaluator-backend/server.js:185 | `trim` returns a contiguous slice of its input that neither starts nor ends with white space, and everything it removes before and after that slice is white space |
| `Classifier.DetermineStatus` | cv-evaluator-backend/server.js:203-230 | falsy content gives error; "Skills Analysis" is success from 80, error below 60; "Missing Keywords" is success iff the text mentions "no missing" or "none", else warning; "Recommendations" is warning; any other title is success iff a success word occurs, error iff only an error word occurs |
| `Classifier.SkillsIgnoresContent` | cv-evaluator-backend/server.js:209-210 | for "Skills Analysis" any two truthy descriptions give the same status |
| `Classifier.SkillsMonotone` | cv-evaluator-backend/server.js:210 | for "Skills Analysis" a higher score never gives a worse status |
| `Classifier.OtherTitlesIgnoreScore` | cv-evaluator-backend/server.js:211-228 | for every title other than "Skills Analysis" the score has no effect |
| `Classifier.CaseInsensitive` | cv-evaluator-backend/server.js:206 | texts equal up to letter case get the same status |
| `Classifier.SuccessWordsTakePrecedence` | cv-evaluator-backend/server.js:216-227 | a generic section mentioning both a success word and an error word is a success |
| `Classifier.EmptyListIsNotFalsy` | cv-evaluator-backend/server.js:204-206 | an empty list and an empty string classify alike only for "Skills Analysis" below 60: the empty list is truthy |
| `Classifier.ListClassifiesAsJoinedText` | cv-evaluator-backend/server.js:206 | a list classifies like its comma-joined text whenever that text is non-empty |
| `Analysis.TokensAreClean` | cv-evaluator-backend/server.js:182-185 | every repaired keyword is non-empty and has no comma or white space, so the trim step changes nothing |
| `Analysis.TokensKeepText` | cv-evaluator-backend/server.js:182-185 | the repaired keywords concatenated are the input with its separators removed |
| `Analysis.TokensOfJoin` | cv-evaluator-backend/server.js:182-185 | clean keywords joined by any separator character are repaired back into the same list |
| `Analysis.TokensOfDelimited` | cv-evaluator-backend/server.js:182-185 | clean keywords separated by any non-empty runs of commas and white space, with any such run before the first or after the last, are repaired back into the same list |
| `Analysis.TypicalKeywordString` | cv-evaluator-backend/server.js:182-185 | "Java, microservices, API" is repaired into the three keywords |
| `Analysis.TokensIdempotent` | cv-evaluator-backend/server.js:182-185 | repairing the comma-joined repaired list gives that list again |
| `Analysis.RepairDescription` | cv-evaluator-backend/server.js:180-186 | only a "Missing Keywords" string is rewritten, into a list; lists and other titles pass unchanged; a missing keyword description makes `.split` throw |
| `Analysis.NormalizeSections` | cv-evaluator-backend/server.js:179-191 | the map fails iff some "Missing Keywords" section has no description; otherwise it keeps count, order and titles, and each status is the classifier applied to the repaired description |
| `Analysis.Normalize` | cv-evaluator-backend/server.js:177-192 | the report keeps the model's score and its sections in order, each repaired and classified, or fails as above |
| `Analysis.KeywordsEndUpAsList` | cv-evaluator-backend/server.js:180-186 | after normalisation every "Missing Keywords" section holds a list, and a clean one when it was repaired from a string |
| `Analysis.NormalizeIdempotent` | cv-evaluator-backend/server.js:177-192 | normalising a normalised report again reproduces it |
| `Analysis.RepairedTextNeverSaysNoMissing` | cv-evaluator-backend/server.js:182-212 | a repaired keyword string never contains "no missing" once stringified, so its section is a success iff it contains "none" |
| `Analysis.BlankKeywordTextIsWarning` | cv-evaluator-backend/server.js:180-212 | a keyword string made only of separators becomes an empty list with status warning |
| `UploadName.Sanitize` | cv-evaluator-backend/server.js:56 | the sanitised name has the original's UTF-16 length and consists only of `[A-Za-z0-9._-]` |
| `UploadName.SanitizeAstral` | cv-evaluator-backend/server.js:56 | without the `u` flag the pattern sees the two UTF-16 code units of a character outside the Basic Multilingual Plane and replaces each, giving `__` |
| `UploadName.SanitizeAppend` | cv-evaluator-backend/server.js:56 | the global replacement works character by character: sanitising a concatenation concatenates the sanitised parts |
| `UploadName.SanitizePointwise` | cv-evaluator-backend/server.js:56 | without astral characters, each position keeps a character of `[a-zA-Z0-9.-]` and turns any other into `_` |
| `UploadName.SanitizeFixesSafeNames` | cv-evaluator-backend/server.js:56 | a name is left unchanged exactly when it already consists of `[A-Za-z0-9._-]` |
| `UploadName.SanitizeIdempotent` | cv-evaluator-backend/server.js:56 | sanitising twice is sanitising once |
| `UploadName.StoredName` | cv-evaluator-backend/server.js:57 | the stored name is the decimal digits of the clock reading, without leading zeros, a dash, and the sanitised original name, and consists only of safe characters |
| `UploadName.DecimalValue` | cv-evaluator-backend/server.js:57 | the digits printed for a non-negative number read back as that number |
| `Accounts.FindUser` | cv-evaluator-backend/server.js:349 | `find` fails exactly when no user has the name, and otherwise returns a user with that name |
| `Accounts.FindUserIsFirst` | cv-evaluator-backend/server.js:349 | the user `find` returns is the first one with that name |
| `Accounts.HashPassword` | cv-evaluator-backend/server.js:469-487 | a stored password verifies against the password it was made from and against no other |
| `Accounts.CheckSignup` | cv-evaluator-backend/server.js:336-352 | signup validation passes iff the body is present, all three fields are given, the passwords agree and the name is free; the checks run in that order, and a missing body, a missing field, differing passwords and a taken name each give their own error |
| `Accounts.CommitSignupAsWritten` | cv-evaluator-backend/server.js:354-357 | the push is always accepted and appends one user with the name and a key that verifies against the password, keeping the earlier users; when the name was already stored, usernames are no longer unique |
| `Accounts.CommitSignup` | cv-evaluator-backend/server.js:349-357 | the push with the name re-checked refuses a taken name, otherwise appends as written, and keeps usernames unique |
| `Accounts.Signup` | cv-evaluator-backend/server.js:334-371 | a refused signup leaves the store alone and answers with the message of the check that failed; an accepted one appends exactly one user; unique usernames stay unique |
| `Accounts.SequentialCommitAsWritten` | cv-evaluator-backend/server.js:349-357 | when nothing interleaves, the re-checking push behaves exactly like the written push |
| `Accounts.ConcurrentSignupsDuplicateAsWritten` | cv-evaluator-backend/server.js:349-357 | for every store and every signup that passes validation, pushing it twice after one check leaves the written store with that name twice |
| `Accounts.ConcurrentSignupsRefusedWhenChecked` | cv-evaluator-backend/server.js:349-357 | with the re-checking push, the second of two signups for one name is refused and usernames stay unique |
| `Accounts.Login` | cv-evaluator-backend/server.js:373-405 | a missing body or field is refused with its error; an unknown name gets "User not found"; otherwise login succeeds iff the key of the first user with that name matches, and is refused with "Incorrect password" when it does not |
| `Accounts.LoginAcceptsIffStoredUserMatches` | cv-evaluator-backend/server.js:384-391 | with unique usernames, login succeeds iff the store holds that user with a key derived from the supplied password |
| `Accounts.DuplicateUserCannotLogIn` | cv-evaluator-backend/server.js:384-391 | in a store with two users of one name only the first can log in: the second is refused although its key matches |
| `Accounts.SignupThenLogin` | cv-evaluator-backend/server.js:334-391 | after a successful signup, login with the same password succeeds and with any other password is refused as incorrect |
| `Dashboard.DescriptionHit` | cv-evaluator-frontend/src/components/Dashboard.tsx:41-45 | a description's `includes` test throws exactly when the description is missing, and otherwise holds iff the lower-cased term occurs at some position of the lower-cased text or of some lower-cased item |
| `Dashboard.AnySectionHitIffMentioned` | cv-evaluator-frontend/src/components/Dashboard.tsx:40-46 | `some` over the sections is true iff some section mentions the term before any section without a description |
| `Dashboard.KeptIffMatches` | cv-evaluator-frontend/src/components/Dashboard.tsx:38-47 | the filter callback keeps an evaluation iff the term occurs, ignoring case, in its filename or in a reachable section description |
| `Dashboard.CompleteEvaluationNeverThrows` | cv-evaluator-frontend/src/components/Dashboard.tsx:40-46 | an evaluation whose sections all have descriptions never makes the callback throw |
| `Dashboard.FilterEvaluations` | cv-evaluator-frontend/src/components/Dashboard.tsx:38-47 | the filter fails iff the callback throws on some evaluation; otherwise it returns a subsequence of the evaluations made of kept entries, as many as there are kept entries |
| `Dashboard.EmptySearchKeepsAll` | cv-evaluator-frontend/src/components/Dashboard.tsx:38-46 | an empty search term keeps every evaluation, in order |
| `Dashboard.SortByScore` | cv-evaluator-frontend/src/components/Dashboard.tsx:49-53 | the sorted list is a permutation of its input, ordered by score non-increasing for "highest" and non-decreasing for "lowest" |
| `Dashboard.SortIsStable` | cv-evaluator-frontend/src/components/Dashboard.tsx:49-53 | evaluations with equal scores keep their relative order |
| `Dashboard.FilteredEvaluations` | cv-evaluator-frontend/src/components/Dashboard.tsx:37-56 | the result holds exactly the filtered entries; with "all" it keeps their original order, with "highest" or "lowest" it is sorted accordingly |
| `Evaluator.ChooseFile` | cv-evaluator-frontend/src/components/CVEvaluator.tsx:25-37 | an acceptable file (PDF, at most 5 MiB) fills only the named slot and clears the error; any other leaves both slots and sets the upload error |
| `Evaluator.ChooseFileLeavesOtherSlot` | cv-evaluator-frontend/src/components/CVEvaluator.tsx:49-63 | the drop handler makes the same test and update as the file input, and whatever the file, the other slot is untouched |
| `Evaluator.EvaluateCV` | cv-evaluator-frontend/src/components/CVEvaluator.tsx:65-116 | without both files only the error is set and nothing is sent; otherwise the busy flag ends cleared, a report is appended to the history as one new last entry carrying the CV file's name and the report's score and sections, and a failure sets the error and leaves the history alone |
| `Evaluator.HistoryOnlyAppends` | cv-evaluator-frontend/src/components/CVEvaluator.tsx:105 | the history grows by at most one entry and its earlier entries are unchanged |

## Findings

| source | as written | input that shows it | evidently intended | confidence | as-written member | corrected member |
|---|---|---|---|---|---|---|
| cv-evaluator-backend/server.js:349-357 | the name check and the push are separated by `await hashPassword(password)`, so the push does not see users added in the meantime | two signups for "alice" with matching passwords arriving together: both pass the check before either is pushed, and both are pushed | usernames stay unique: the second signup is refused with "Username already exists" | medium, not executed | `Accounts.ConcurrentSignupsDuplicateAsWritten` | `Accounts.CommitSignup` |

`Accounts.Signup` uses the re-checking `Accounts.CommitSignup`. When no
other request interleaves, it is the same as the written push
(`Accounts.SequentialCommitAsWritten`).

## Left out

- The language-model call, the prompt text and `JSON.parse`. The model starts from the parsed answer, `Analysis.ParsedAnswer`.
- JSON values other than strings, string lists and a missing value. This covers numbers or objects as descriptions, non-string list items, and a missing `sections` array. These would make the source throw or stringify differently.
- `Analysis.NormalizeSections`: the failure message is the one JavaScript gives for `undefined`; for `null` it would name `null`.
- PDF text extraction and PDF report rendering. Both are wrappers around the pdf-parse and pdfkit libraries.
- multer, express routing, CORS, cookies, response logging, file clean-up and process handlers. These are I/O plumbing. This also covers the server-side MIME filter and size limit.
- JWT signing and verification, the `/api/session` and `/api/logout` endpoints. A reply records only the username its session cookie is issued for.
- scrypt, `randomBytes` and `timingSafeEqual`. Derivation is an injective constructor, the salt is a parameter, and verification is equality of derived keys.
- `JsString.Lower`: maps only `A`–`Z`. JavaScript's `toLowerCase` also maps other letters, some onto ASCII (U+212A KELVIN SIGN becomes `k`), which could change keyword detection for such text.
- `Classifier.DetermineStatus`: the score is an integer. Fractional scores, `NaN` and a missing score are not modelled.
- `Dashboard.SortByScore`: scores are integers. Comparators yielding `NaN` are not modelled.
- That the input to the dashboard filter is not modified. Dafny sequences are values, so this holds by construction and has no member of its own.
- React rendering, routing, drag-over styling, the intermediate "evaluating" state, navigation, `downloadReport`, localStorage syncing and the card toggle state. These are UI and I/O.
- `Evaluator.EvaluateCV`: the report in a successful reply is taken as given. The client does not check its fields, and neither does the model.
- The login and signup pages of the frontend. Their submit handlers only log.
