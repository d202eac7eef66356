# Cyclops user pipeline, modelled in Dafny

The program fetches a list of user records from a remote endpoint. It checks each record's email against one anchored regular expression and logs one line per user. This project models the logic of `index.js`:

- **`UserProcessor.isValidEmail`** (`email_validation.dfy`, module `EmailValidation`). The expression is `^[\w.-]+@[\w.-]+\.[a-zA-Z]{2,}$`, without the `u` flag, so `\w` is `[A-Za-z0-9_]`. It is described three ways, and all three are proved equal:
  - `MatchesPattern` reads the expression literally. A string matches when some choice of the '@' position and of the escaped dot's position splits it into the five pieces of the pattern, and the pieces cover the whole string.
  - `WellFormedAddress` is a declarative characterisation. The string has exactly one '@'. The local part is non-empty and over `[\w.-]`. The domain is over `[\w.-]`. The domain's last '.' is not its first character. After that dot come at least two ASCII letters and nothing else.
  - `IsValidEmail` is the executable recogniser: a finite automaton (`Step`, `Scan`) run over the string. Its invariant is that the state after any prefix is the one the ghost function `Describe` assigns to that prefix.

  `PatternSplitIsUnique` is the backtracking argument: the only decomposition that can match puts the escaped dot at the domain's last '.', because the top-level label contains no dot. The predicate is a total function with no precondition and no state. The expression has no `g` flag and a fresh literal is built on every call, so no `lastIndex` carries over from one test to the next.
- **`UserProcessor.processUsers`** (`user_processor.dfy`). A loop over the users emits one entry per user, in order, into a `Logging.Logger`. The logger is a class whose `entries` sequence stands for the winston sink. `ProcessLog` is the function that specifies the loop.
- **`UserFetcher.fetchUsers`** (`user_fetcher.dfy`). The lenient try/catch: success logs the status and the count and returns the body unchanged; any throw logs the reason and returns `[]`. The HTTP request is an input of type `Transport`: a resolved response with a status and a body, or a rejection with its message.
- **`main`** (`program.dfy`, method `Program.Run`). Fetch, then call the processor only when the result is non-empty.
- `Users` holds the record type. `EmailExamples` and `PipelineExamples` state the test suite's cases (`test.js`) as lemmas.

`index.js:35` accepts consecutive dots, so `a..b@x..com` is valid here (`EmailExamples.AcceptsConsecutiveDots`). `fetchUsers` returns `[]` on every failure instead of throwing. A stricter variant, one that rejects consecutive dots or throws on failure, is not modelled.

## Model

| member | source | states |
|---|---|---|
| `EmailValidation.IsValidEmail` | index.js:38-40 | the recogniser for `isValidEmail`; its own contract says only that an accepted string has exactly one '@', and not at index 0; its full meaning is stated by `IsValidEmailCorrect` |
| `EmailValidation.IsValidEmailCorrect` | index.js:34-40 | the recogniser accepts a string exactly when it is in the language of the anchored expression, and exactly when it is a well-formed address (one '@', non-empty `[\w.-]` local part, `[\w.-]` domain whose last '.' is at index 1 or later, then two or more ASCII letters) |
| `EmailValidation.ScanDescribes` | index.js:35 | the automaton's state after reading any string is the state `Describe` assigns to it (the automaton invariant) |
| `EmailValidation.AcceptedIffWellFormed` | index.js:35 | the accepting state is reached exactly on well-formed addresses |
| `EmailValidation.WellFormedIffMatchesPattern` | index.js:35 | the declarative characterisation and the literal reading of the expression define the same language |
| `EmailValidation.PatternSplitIsUnique` | index.js:35 | any split that fits the pattern has exactly one '@', at that split's '@' position, and puts the escaped dot at the domain's last '.' (backtracking has no other choice) |
| `EmailValidation.RejectsUnlessExactlyOneAt` | index.js:35 | a string with zero or with two or more '@' is rejected |
| `EmailValidation.RejectsWithoutDot` | index.js:35 | a string with no '.' is rejected |
| `EmailValidation.RejectsForeignChar` | index.js:35 | a string with any character outside `[A-Za-z0-9_.@-]` at any position, whitespace included, is rejected |
| `EmailValidation.RejectsPadding` | index.js:35 | prefixing or suffixing any string with a character outside those classes gives a rejected string: the match is anchored, not a substring search |
| `EmailExamples.AcceptsPlainAddress` | test.js:42 | `test@example.com` is valid |
| `EmailExamples.AcceptsDottedLocalPartAndSubdomain` | test.js:43 | `user.name@domain.co.il` is valid |
| `EmailExamples.AcceptsHyphenatedLocalPart` | test.js:44 | `user-name@domain.org` is valid |
| `EmailExamples.RejectsMissingDomain` | test.js:47 | `test@` is invalid |
| `EmailExamples.RejectsMissingTld` | test.js:48 | `test@domain` is invalid |
| `EmailExamples.RejectsMissingAt` | test.js:49-51 | `test` and the empty string are invalid |
| `EmailExamples.RejectsEmptyLocalPart` | test.js:50 | `@domain.com` is invalid |
| `EmailExamples.AcceptsConsecutiveDots` | index.js:35 | `a..b@x..com` is valid: the expression does not reject consecutive dots |
| `Logging.Logger.Info` | index.js:5-12 | logging at info level appends exactly one info entry and changes nothing else |
| `Logging.Logger.Error` | index.js:5-12 | logging at error level appends exactly one error entry and changes nothing else |
| `UserProcessor.EntryFor` | index.js:44-50 | the entry for one user is either a details message or an invalid-email message, carries that user's id and email, and is at info level exactly when it is the details message; which one is chosen is stated by `EntryForDispatch` |
| `UserProcessor.ProcessLog` | index.js:43-51 | the specification of the processing loop: one entry per user; their order and contents are stated by `ProcessLogOnePerUser` |
| `UserProcessor.EntryForDispatch` | index.js:44-50 | a user's entry is at info level exactly when the email is a well-formed address (equivalently, matches the expression); at info level it carries id, name, email and company name, at error level the id and the email |
| `UserProcessor.ProcessLogOnePerUser` | index.js:43-51 | processing logs exactly one entry per user and nothing else; entry i is the entry for user i |
| `UserProcessor.ProcessLogAppend` | index.js:43-51 | the log for a concatenation of two user lists is the concatenation of their logs: no user's entry depends on another user |
| `UserProcessor.ProcessUsers` | index.js:42-52 | the loop appends to the logger exactly the specified log of the users, after what was already logged |
| `UserFetcher.FetchResult` | index.js:22-29 | the users fetchUsers returns: empty, or the response body unchanged |
| `UserFetcher.FetchLog` | index.js:20-27 | what fetchUsers logs: two entries, the attempt first; the second is at info level exactly when the body was an array (details in `FetchOutcome`) |
| `UserFetcher.FetchOutcome` | index.js:19-30 | fetching returns either nothing or the response body unchanged, never anything else; it logs exactly two entries, first the attempt; the second is the info status line with the count of users returned exactly when the body was an array, and otherwise an error, with nothing returned |
| `UserFetcher.FailureYieldsEmpty` | index.js:26-28 | a rejected request returns `[]` and logs the attempt and the error's message |
| `UserFetcher.SuccessYieldsData` | index.js:23-25 | a resolved request with an array body returns that array, empty or not, and logs the attempt and the status with the array's length |
| `UserFetcher.FetchUsers` | index.js:19-30 | the fetch control flow returns the specified result and appends exactly the specified entries to the logger |
| `Program.RunLog` | index.js:55-61 | what one run logs: the fetch log first, then exactly one more entry per fetched user (details in `RunOnSuccess`, `RunOnFailure`) |
| `Program.RunOnFailure` | index.js:55-61 | a run whose request fails logs the attempt and the error only: no user is processed |
| `Program.RunOnSuccess` | index.js:55-61 | a run whose request returns an array logs the attempt, the status line, then one entry per user in order, entry 2 + i being about user i |
| `Program.GuardIsUnobservable` | index.js:58-60 | a run's log is the fetch log followed by the processing log of the fetched users: the emptiness guard skips only a call that would log nothing |
| `Program.Run` | index.js:55-61 | the processor is called exactly when the fetch returned at least one user, and the run appends exactly the specified log |
| `PipelineExamples.FetchReturnsResponseData` | test.js:11-27 | a resolved response's array is returned as it is, for one user and for none |
| `PipelineExamples.FetchFailureReturnsEmpty` | test.js:29-35 | a "Network Error" rejection returns `[]`, and the run logs only the attempt and that error |
| `PipelineExamples.ValidUserIsLoggedAsInfo` | index.js:46-47 | a user with email `ilan@gmail.com` is logged at info level with id, name, email and company name |
| `PipelineExamples.InvalidUserIsLoggedAsError` | index.js:48-49 | a user with email `invalid-email` is logged at error level with id and email |

## Left out

- The HTTP request through `axios` and the endpoint URL (index.js:15-17, 23) are network I/O. The transport's outcome is an input (`UserFetcher.Transport`). Axios's rejection of non-2xx statuses arrives as `Rejected`.
- Response bodies other than an array or `null` (an object, a string, a number) are not modelled. With them the code reads an undefined or a character `length` and returns the body as it is. The `null` body is modelled: reading its `length` throws inside the try block, so it is logged as a failure and `[]` is returned. The reason logged is the JavaScript runtime's message, a constant here.
- The winston logger's construction, its console and file transports and `index.log` (index.js:5-12) are logging plumbing. `Logging.Logger` keeps the entries in order instead.
- Messages are structured, not rendered. The text of each log line, including the conversion of `id` and `status` to strings (index.js:24, 27, 47, 49), is formatting.
- `async`/`await` and the call of `main()` when the module loads (index.js:19, 55, 68) are runtime and process bootstrapping.
- A record without a `company` makes the destructuring at index.js:44 throw a TypeError. That exception aborts the run and is not modelled: every `Users.User` has a company with a name.
- A non-string `email` is converted to a string by the regular expression's `test`. Emails are strings here.
- A stricter variant is not modelled, because `index.js` does not do it: rejecting consecutive dots, throwing from `fetchUsers` instead of returning `[]`, or rejecting an empty list in `processUsers`.
