# Tuq background workers and request checks, in Dafny

Tuq ("The Universal Quiz Network", served at sproot.xyz) lets administrators
publish quizzes and lets users sit them. Three background workers do the
slow work. Each one polls a redis hash, handles every key of a snapshot of
that hash, and then acknowledges the key by deleting it:

- **Paper marker.** It scores each submitted paper in `tuq:pending_papers`
  against its course's answer key. A paper it can mark becomes an
  `ExamTaken` row. A paper it cannot mark is copied verbatim into
  `tuq:error_unmarked_papers`.
- **Admin-approval worker.** It turns each request in `tuq:admin_requests`
  into an unconfirmed administrator in the users table. It then:
  - records the username and email in the deduplication sets `tuq:usernames`
    and `tuq:emails`;
  - queues `"<id> %% <full name>"` under the email in
    `tuq:pending_confirmation_emails`.

  A request whose try block raises is copied into `tuq:admin_request_fails`.
  This includes a raise after the commit, which keeps the new row and set
  members.
- **Confirmation-email worker.** It sends each queued receiver a
  confirmation link, `https://sproot.xyz/tuq/confirm?token=<token>`. The
  token signs `{'endUsers': email, 'id': user_id}` for twelve hours. A
  receiver whose sending fails is recorded in
  `tuq:failed_confirmation_emails`.

The model also covers the request handlers' own logic:

- the date parser;
- the names of the files that store a course's questions and answers;
- the checks on an administrator's repository list when adding and deleting
  repositories and courses;
- the signup checks against the deduplication sets;
- the administrator signup form, with WTForms' validator chains.

## How the model is built

- `Stores.Store` is the redis instance. It is a class with one `map` field
  per hash and one `set` field per deduplication set.
- `Stores.Database` is the relational store. Each table is an append-only
  sequence of rows.
- Each worker's poll-process-acknowledge pass is a method, `RunCycle`. It
  loops over the snapshot of keys and updates the fields in place.
  - It is proved against a pure function, `Cycle`, which handles the
    snapshot head first.
  - The loop invariant is that what remains of the snapshot, run from the
    current state, ends where the whole snapshot, run from the initial
    state, ends.
  - The lemmas about `Cycle` state what a pass does:
    - every snapshot key is acknowledged;
    - error entries appear exactly for failed items;
    - the rows, set members and queued emails added are exactly those of the
      items that succeeded, in snapshot order;
    - nothing else changes.
- **Errors outside the try block.** Parsing a payload happens before the
  worker's `try` block. An exception there is not caught and ends the
  worker's thread. `Cycle` then ends as `Halted(state, key)`, with that key's
  pending entry still in place and no error entry for it. The `HaltedCycle`
  lemmas pin down that state.
- **Errors inside the try block.** Commit failures, unreadable solution
  files and mail-transport failures are a parameter: the set of keys whose
  try block raises.
- **Decoding.** JSON decoding is a function parameter.
  - In the paper marker, `json.loads`, `long()` and `.get` all run before
    the try block. The decoder returns `None` where any of them would raise.
  - In the admin-approval worker, only `json.loads` runs before the try
    block. The decoder tells text that is not JSON (the pass halts) from a
    JSON value that is not an object. On such a value `.get` raises inside
    the try block, so the request goes to the fails hash.
- **Values that may be `None`.** The redis client and `str.format` both
  render `None` as the text `None`, and so does the model (`Text.Show`).

The workers' code has quirks, and the model keeps them as written:

- The admin-approval worker formats the nationality and the queued
  confirmation value into byte strings. Python 2 encodes a unicode argument
  as ASCII there, so a non-ASCII value raises UnicodeEncodeError.
  - A non-ASCII nationality raises before the commit. Only a fails entry is
    written.
  - A non-ASCII full name raises after the commit. The administrator row and
    the username and email set members stay, no confirmation email is
    queued, and the request still lands in the fails hash
    (`AdminBroker.FailedAfterCommit`).
- The admin-approval worker adds a phone number to `tuq:phones` only when the
  number is already a member. So this worker never grows that set.
- The email worker unpacks the queued string as its first two characters.
  - The "user id" it signs is therefore only the first decimal digit of the
    id.
  - The "full name" is the second digit, or a space for a one-digit id.
  - `EmailBroker.AdminEntryUnpacked` and
    `EmailBroker.AdminTokenCarriesWrongId` state this.
- Two course codes that differ only in a space against a dot pass the
  duplicate-code check, yet share their question and solution files
  (`Views.FileNamesCollide`).
- A code of the form `solutions_<c>` has the solution file of `<c>` as its
  question file (`Views.SolutionNamesOverlap`).

## Model

| member | source | states |
|---|---|---|
| Text.SignedExamples | views.py:88 | Python 2 `int()` skips white space after the sign: `- 5` is -5. `5 5` and a lone `+` raise. |
| PaperMarker.GrabCourseData | paper_marker.py:36-40 | No course is found exactly when no row has the id, which is the ValueError case. A course that is found is a row of the table with that id. |
| PaperMarker.MarkOutcome | paper_marker.py:53-61 | An arity mismatch is always `ArityMismatch`, with no partial score. Marking succeeds exactly when the lengths agree and every entry is an integer. The score is then the number of agreeing positions, and it lies in 0..total, where the total is the arity. |
| PaperMarker.MatchesCountsPositions | paper_marker.py:57-60 | The count kept by the loop is the size of the set of positions i with `int(expected[i]) == int(submitted[i])`. |
| PaperMarker.FullMarks | paper_marker.py:57-61 | The score equals the total exactly when every position agrees. |
| PaperMarker.MarkPaper | paper_marker.py:43-61 | The marking loop returns what `Mark` specifies: the same error on a missing length, an arity mismatch or a non-integer, and the same score and total otherwise. |
| PaperMarker.ScoringExamples | paper_marker.py:53-61 | Against the key [0,1,1], the answers [0,1,2] score 2 of 3, and [0,1] is an arity error. |
| PaperMarker.MarkedPaperRow | paper_marker.py:88-95 | A stored ExamTaken row belongs to an existing course. It carries the request's course, user and owner ids, its date and its raw answers string. Its score is the number of agreeing positions, and its total is the arity. |
| PaperMarker.DrainedCycle | paper_marker.py:73-99 | After a pass over decodable pending keys: every snapshot key is gone from `tuq:pending_papers`, and no other key is; a key is in the error hash with its payload verbatim exactly when its try block raised; other error entries are unchanged; the rows added are the marked papers' rows, in order. |
| PaperMarker.DrainedPending | paper_marker.py:77-99 | The pending hash afterwards is the old one minus exactly the snapshot keys. |
| PaperMarker.DrainedErrors | paper_marker.py:88-98 | An error entry is written, with the verbatim payload, exactly for a key whose try block raised. All other error entries are untouched. |
| PaperMarker.DrainedExams | paper_marker.py:88-95 | The exams table grows by exactly the rows of the papers that were marked, in snapshot order. |
| PaperMarker.HaltedCycle | paper_marker.py:78-86 | A payload that fails to decode stops the pass at that key, in the state the earlier keys left. Its pending entry stays, and it gets no error entry. |
| PaperMarker.RunCycle | paper_marker.py:69-99 | The loop sleeps 60 seconds on an empty snapshot and otherwise not at all. It leaves the pending hash, the error hash and the exams table as `Cycle` specifies, and stops where `Cycle` halts. |
| AdminBroker.PendingEmailValueShape | admin_broker.py:76-77 | The queued value is the decimal user id, then `" %% "`, then the full name, which is `None` when absent. |
| AdminBroker.FailedInsert | admin_broker.py:38-81 | When the try block raises before the commit, the pass writes the raw payload verbatim into the fails hash and deletes the request. This covers a payload that is not an object, a nationality that does not format and the insert raising. The deduplication sets, the users table and the pending emails are unchanged. |
| AdminBroker.SuccessfulInsert | admin_broker.py:69-81 | When the whole try block runs, one administrator row with the next id is added. The username and email go into their sets, `tuq:phones` is unchanged, the email gets `"<id> %% <full name>"`, and the fails hash is unchanged. |
| AdminBroker.FailedAfterCommit | admin_broker.py:69-81 | When the full name does not format, the row and the username and email set members are kept. No email is queued, and the raw payload goes into the fails hash. |
| AdminBroker.PhonesNeverGrow | admin_broker.py:74-75 | Whatever the snapshot, and however the pass ends, `tuq:phones` is unchanged. |
| AdminBroker.RowsAreAdministrators | admin_broker.py:38-48 | Every inserted row is an administrator, unconfirmed and not premium. Its other_info is `Nationality: <nationality>`, and its other columns are copied from the request. Each successive row takes the next value of the id counter. |
| AdminBroker.DrainedRequests | admin_broker.py:64-81 | After a pass over requests that `json.loads` accepts, every snapshot key has left `tuq:admin_requests`, and no other key has. A key is in the fails hash with its payload verbatim exactly when its try block raised, before or after the commit. Other fails entries are unchanged. |
| AdminBroker.DrainedApprovals | admin_broker.py:67-77 | The rows added are exactly the committed requests' administrators, in order, each taking the next value of the id counter. The username and email sets gain exactly those values, and `tuq:phones` is unchanged. The pending-email hash gains the entry of each committed email whose full name formats. |
| AdminBroker.DrainedUsers | admin_broker.py:69 | The users table grows by exactly the committed requests' rows, including those that fail afterwards. The id counter advances by their number. |
| AdminBroker.DrainedSets | admin_broker.py:72-73 | The username and email sets gain exactly the committed requests' values, including those that fail afterwards. |
| AdminBroker.DrainedJobs | admin_broker.py:76-77 | For each committed request whose full name formats, the pending-email hash gains `"<id> %% <full name>"` under the email, from the last such row with that email. Committed requests with a non-ASCII full name queue nothing. |
| AdminBroker.HaltedCycle | admin_broker.py:65-66 | A payload that fails `json.loads` stops the pass at that key, in the state the earlier keys left. Its request stays, and it gets no fails entry. |
| AdminBroker.SaveToDatabase | admin_broker.py:38-48 | The row is saved exactly when the nationality formats and the commit succeeds. It is then appended under the next id, and that id is returned. Otherwise the table is unchanged. |
| AdminBroker.HandleRequest | admin_broker.py:67-81 | For a payload that `json.loads` accepts, the try block and the `hdel` change the store and the users table exactly as one `Step` does. |
| AdminBroker.RunCycle | admin_broker.py:56-81 | The loop sleeps 60 seconds on an empty snapshot. It leaves the request, fails and pending-email hashes, the three sets and the users table as `Cycle` specifies, including the raise after the commit, and stops where `Cycle` halts. |
| EmailBroker.ConfirmationLink | email_broker.py:52 | The link is exactly the fixed prefix followed by the token. |
| EmailBroker.TokenOfLink | email_broker.py:52 | A token is found exactly when the text starts with the prefix, and it is the rest of the text. |
| EmailBroker.LinkRoundTrip | email_broker.py:52 | Reading the token back from a link gives the token, and different tokens give different links. |
| EmailBroker.LinkRejected | email_broker.py:52 | A text without the prefix carries no token. |
| EmailBroker.ConfirmationFor | email_broker.py:39-56 | The email goes to the receiver with the given full name. Its link carries the token for `{'endUsers': receiver, 'id': user_id}` with a 43200-second expiry. |
| EmailBroker.Unpack | email_broker.py:73-74 | Unpacking succeeds exactly for entries of at least two characters. The id and the full name are the first and second characters. The source indexes the bytes that `hget` returns; the admin-approval worker writes ASCII only, so bytes and characters coincide. |
| EmailBroker.DrainedCycle | email_broker.py:69-80 | After a pass over entries that unpack: every snapshot receiver has left the pending hash, and no other has. A receiver is in the failed hash, with the first character of its entry, exactly when sending failed, and other failed entries are unchanged. One email is sent per other receiver. Characters stand for the bytes `hget` returns, which coincide for the ASCII entries the admin-approval worker writes. |
| EmailBroker.DrainedPending | email_broker.py:72-80 | The pending hash afterwards is the old one minus exactly the snapshot receivers. |
| EmailBroker.DrainedFailed | email_broker.py:75-79 | A failed entry is written exactly on a send failure, and holds the receiver id. All other failed entries are untouched. |
| EmailBroker.DrainedSent | email_broker.py:76 | The emails handed to the transport are exactly those of the receivers whose sending succeeded, in snapshot order. |
| EmailBroker.HaltedCycle | email_broker.py:73-74 | An entry shorter than two characters stops the pass at that receiver, in the state the earlier receivers left. |
| EmailBroker.AdminEntryUnpacked | email_broker.py:73-74 | For an entry queued by the admin-approval worker, the "id" is the first digit of the user id, and the whole id only when it is below 10. The "full name" is a space or the second digit. |
| EmailBroker.AdminTokenCarriesWrongId | email_broker.py:74-76 | For a user id of 10 or more, the token mailed carries an id that differs from the user's id. |
| EmailBroker.RunCycle | email_broker.py:65-80 | The loop sleeps 600 seconds on an empty snapshot. It leaves the pending and failed hashes as `Cycle` specifies, returns the emails sent, and stops where `Cycle` halts. |
| Views.DateFromString | views.py:82-93 | `None`, or a text with fewer than three `-` fields, gives `None`. Otherwise a ValueError is raised exactly when one of the first three fields is not an integer, and an OverflowError exactly when all three are integers but one does not fit a C int. A returned date is a valid calendar date. |
| Views.IsoRoundTrip | views.py:82-93 | Parsing the ISO form of any valid date gives that date back. |
| Views.ExtraFieldsIgnored | views.py:85-88 | Fields after the third do not change the result. |
| Views.DateFromFields | views.py:88-93 | A non-integer field, in any of the three places, raises ValueError. Integer fields of which one does not fit a C int raise OverflowError. Integer fields that fit give the date exactly when they form a valid calendar date, and `None` otherwise. |
| Views.OverflowingDate | views.py:88-93 | Decimal fields of which one exceeds 2^31 - 1 raise OverflowError, which the `except ValueError` does not catch. |
| Views.InvalidMonth | views.py:88-93 | `2020-13-1` gives `None`: month 13 fits a C int but is not a calendar month. |
| Views.LeapDay | views.py:89-93 | 29 February is accepted exactly in Gregorian leap years. |
| Views.QuestionFileName | views.py:412 | The name keeps the code's length and characters, with spaces and dots turned into underscores, followed by `.json`. |
| Views.SolutionFileName | views.py:415 | The name is `solutions_` followed by the question file name. |
| Views.FileNameStem | views.py:412 | A file name's stem contains no space and no dot. |
| Views.FileNameInjective | views.py:412 | Different codes without spaces and dots never share a question file. |
| Views.FileNamesCollide | views.py:399-415 | The different codes `CS 101` and `CS.101` share both file names. |
| Views.SolutionNamesOverlap | views.py:412-415 | The question file of the code `solutions_<c>` is the solution file of `<c>`. |
| Views.IntOfDecimal | views.py:425 | `int()` reads the decimal text of any natural number back as that number, and leaves a JSON integer as it is. |
| Views.IntOfRejects | views.py:425 | `int()` rejects an empty or blank text, `90 min` and `1.5`. |
| Views.FindRepository | views.py:392-395 | It returns the first repository with the name, or reports that no repository has it. |
| Views.AddRepositoryOutcome | views.py:337-347 | Adding succeeds exactly for a present, non-empty name that is not yet used, and then appends exactly one empty repository of that name. Repository names stay unique. |
| Views.DeleteRepositoryOutcome | views.py:520-528 | Deleting succeeds exactly when some repository has the name. It removes exactly one repository, the first match, and keeps all the others in their order. With unique names, the name is then gone. |
| Views.DeleteUndoesAdd | views.py:332-528 | Deleting a repository just added gives back the original list. |
| Views.AddCourseOutcome | views.py:390-429 | A successful add changes only the named repository. It appends one course whose code was unused there, stored under the code's file names, so course codes stay unique. |
| Views.AddCourseRefusals | views.py:384-401 | A request missing a required field is refused with "Missing arguments". A missing or unknown repository is refused. A code already used in that repository is refused. |
| Views.Account.Lookup | views.py:392-395 | The loop finds what `FindRepository` specifies. |
| Views.Account.AddRepository | views.py:332-356 | The repository list afterwards is what `AddRepositoryTo` gives. A refused request returns that error and leaves the list unchanged. |
| Views.Account.DeleteRepository | views.py:516-528 | The repository list afterwards is what `DeleteRepositoryFrom` gives. A refused request returns that error and leaves the list unchanged. |
| Views.Account.CodeInUse | views.py:399-401 | The loop reports exactly whether some course of the repository has the code. |
| Views.Account.AddCourse | views.py:362-429 | The repository list afterwards is what `AddCourseTo` gives. A refused request returns that error and leaves the list unchanged. |
| Views.SignupCheckOutcome | views.py:256-272 | The checks pass exactly for a complete request whose username, email and phone are all unregistered. A taken username is reported first, then a taken email, then a taken phone. |
| Views.Signup | views.py:252-292 | A refused signup changes nothing. So does a commit that raises: InvalidRequestError gives "User detail already exist", any other database error the generic error. A committed one adds a normal user and puts the username, email and phone into their sets. The result reflects whether the email could be sent. |
| Views.SignupNotRepeatable | views.py:267-284 | After a committed signup, any complete request with that username is refused as taken. |
| Views.AdminSignup | views.py:228-243 | Only a form that validates is queued in `tuq:admin_requests`, under its username. |
| Views.ApprovedFormNotResubmittable | views.py:228-243 | Once the admin-approval worker has approved a submitted form, the same form fails validation on its username and on its email. |
| Forms.LastLength | GraceOnServer/Core/forms.py:9-21 | A Length check adds a message exactly when the length is out of bounds. |
| Forms.FullNameRule | GraceOnServer/Core/forms.py:9 | full_name is valid exactly when it is not blank and has 1 to 24 characters. |
| Forms.AddressRule | GraceOnServer/Core/forms.py:10 | address is valid exactly when it is not blank and has 10 to 512 characters. |
| Forms.UsernameRule | GraceOnServer/Core/forms.py:11-30 | username is valid exactly when it is not blank, has 5 to 64 characters, and is not in `tuq:usernames`. |
| Forms.EmailRule | GraceOnServer/Core/forms.py:12-26 | email is valid exactly when it is not blank, passes the Email check, has 5 to 64 characters, and is not in `tuq:emails`. |
| Forms.NationalityRule | GraceOnServer/Core/forms.py:13 | nationality is valid exactly when it is not empty or white space only. |
| Forms.DisplayNameRule | GraceOnServer/Core/forms.py:14-17 | A blank display_name is accepted. Any other must have at most 64 characters and match the alias pattern. |
| Forms.PhoneNumberRule | GraceOnServer/Core/forms.py:18-34 | phone_number is valid exactly when it is not blank, has 10 to 20 characters, and is not in `tuq:phones`. |
| Forms.PasswordRule | GraceOnServer/Core/forms.py:19-20 | password is valid exactly when it is not blank, equals password2, and has 8 to 96 characters. |
| Forms.Password2Rule | GraceOnServer/Core/forms.py:21 | password2 is valid exactly when it is not blank. |
| Forms.FormRule | GraceOnServer/Core/forms.py:8-34 | The validator chains accept exactly the forms the field-by-field rule accepts. |
| Forms.DisplayNameLaxities | GraceOnServer/Core/forms.py:14-17 | `bob` followed by a line feed, and three spaces, are accepted as display names. `9lives` is refused. |

## Left out

- The Flask application, blueprints, responses, login and sessions are left
  out. So are the redis and SQLAlchemy client APIs: the stores are the two
  classes above, and every redis call is assumed to succeed.
- Threads, daemon start-up and `time.sleep` are left out. The sleep and
  start-up delays appear only as constants and as the `slept` result of each
  pass.
- Cryptographic signing of tokens is a function parameter. Only the payload
  and the expiry are modelled.
- Rendering mail templates and the mail transport are left out. A sent email
  is a record of what the transport would receive.
- File I/O is left out: reading the answer key from its solution file,
  writing the question and solution JSON files, `safe_makedir` and
  `safe_join`. Stored files are named by owner, repository and file name.
- Logging and `print` are left out.
- Password hashing is left out. The password is carried as given.
- The `Email()` format check is an opaque predicate parameter.
- The form's CSRF check and the POST-method check of `validate_on_submit`
  are left out.
- JSON decoding is left out: it is a parameter returning what the code would
  see. Most fields of a decoded object are modelled as a string or absent.
  The course duration may also be an integer. Other JSON types in those
  fields are not modelled, nor is a departments value that cannot be
  iterated.
- Views.IntOf: does not model JSON floats, which `int()` truncates toward
  zero (`int(90.5) == 90`).
- AdminBroker.RowsAreAdministrators: user ids come from a counter that only
  the modelled inserts advance. In the database the id is the users table's
  primary key. Web signups share it, and a sequence can skip values. So
  "the next value of the counter" means the next id this model hands out,
  not a promise about the database.
- `date_of_registration`, taken from the clock, is not a column of the
  modelled users row.
- `get_result_route`, the course cache `tuq:known_courses`, the login and
  confirm routes, file uploads, `email_logger.py`, the migrations,
  `init_file.py` and `manage.py` are not part of this model.
- `resources.py` and `models.py` are not part of this model. The value of
  `DEFAULT_DISPLAY_PICTURE` is the constructor `DefaultPicture`.
- In the request handlers, commit failures are left out, except in signup.
  So is the generic exception path of `add_repository_route`.
- Views.Account.AddRepository: does not model the directory creation and
  commit that follow the append, whose failure the route reports after the
  list has already grown in memory.
- Views.Account.AddCourse: does not model the question and solution files
  being written before the date and duration are converted. It also does not
  model the course-cache update after the commit.
- A request body that is not valid JSON makes `get_json` raise BadRequest,
  and the model has no input for it. `add_repository_route` and
  `admin_add_course_route` catch it and answer `Bad request`;
  `delete_repository_route` has no try block, so Flask answers 400;
  `signup_route` reports it through its generic exception handler.
- The repository list is a value inside the account. The sharing between
  ORM objects and the session is not modelled.
- String handling covers ASCII white space and ASCII digits only. Unicode
  white space and digits, which `strip()` and `int()` also accept on unicode
  text, are not modelled.
