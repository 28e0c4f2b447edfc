# Workout app: verified model of the request logic

This project models the logic of the workout web application's `app.py`:
the rules it applies to requests once the web framework, the database, the
password library, the clock, the file system and the chat-completion service
are set aside. Users register and log in; a logged-in user uploads a workout
video, receives a fixed placeholder analysis and coaching feedback written by
the chat-completion service, and browses their past sessions.

The model has seven modules:

- `Wrappers` (`wrappers.dfy`): `Option` for form fields that may be absent, and `Result` for a chat reply that may be an error.
- `Filenames` (`filenames.dfy`): the upload file-name gate `allowed_file`. It accepts a name when the text after its last `.`, lower-cased, is one of `mp4`, `mov`, `avi`, `mkv`.
- `Greetings` (`greetings.dfy`): the salutation for the hour of the day. The source repeats the hour test in three routes; the model defines it once. Only the home page appends the username when someone is logged in. The register and login pages show the salutation alone, which is `Greeting(hour, None)`.
- `Accounts` (`accounts.dfy`): the user table (`UserStore`) with its registration rules and its uniqueness invariant, the login decision, and the choice of redirect target after login.
- `Analysis` (`analysis.dfy`): the placeholder `process_video`, the prompt sent to the chat service, and `generate_feedback`, which never fails.
- `Sessions` (`sessions.dfy`): the workout-session table (`SessionStore`). It covers the upload request with its three gates and single insert, the owner-only detail lookup, and the per-user history newest first.
- `Startup` (`startup.dfy`): the `_table_created` flag, which makes table creation run only on the first request.

Opaque inputs are parameters. The clock gives an `hour` and a timestamp `now`.
Password hashing is `hash: string -> string`. Password checking is `check`.
`secure_filename` is `sanitize`. The chat-completion call is
`chat: string -> Result<string, string>`: it maps the prompt to the reply's
content or to the text of the exception raised. The file system is reduced to
the ghost list `SessionStore.written`, which records every path saved.

Row ids are modelled as 1, 2, 3, ... in insertion order. This is what the
database assigns to an integer primary key when rows are never deleted, and
`app.py` deletes neither users nor sessions.

## Model

| member | source | states |
|---|---|---|
| `Filenames.LowerChar` | app.py:64 | maps each ASCII capital to its small letter; the only characters it maps to small ASCII letters are those letters themselves, the capitals and the Kelvin sign |
| `Filenames.Lower` | app.py:64 | the model's lower-casing keeps the length and applies `LowerChar` to each character in place (see "Left out" for how this differs from Python) |
| `Filenames.LastDot` | app.py:64 | there is no position exactly when the name has no `.`; otherwise the position holds a `.` and no `.` follows it |
| `Filenames.Extension` | app.py:64 | `rsplit('.', 1)[1]` is dot-free, and the name is some stem, a `.`, and that text |
| `Filenames.SplitAtLastDot` | app.py:64 | for any stem and dot-free ext, the extension of `stem + "." + ext` is exactly `ext` |
| `Filenames.AllowedFile` | app.py:60-64 | an accepted name is at least four characters long, has a `.` fourth from the end, and its last three characters lower-case to an entry of the allow-list of app.py:13 |
| `Filenames.AllowedFileCharacterization` | app.py:60-64 | both directions: a name is allowed exactly when it is stem + `.` + a dot-free extension whose lower-cased form is in the allow-list of app.py:13 |
| `Filenames.NoDotRejected` | app.py:64 | a name without `.` is always rejected |
| `Filenames.ExampleUpperCaseAccepted` | app.py:13 | `a.tar.MP4` is accepted |
| `Filenames.ExampleInnerExtensionIgnored` | app.py:64 | `a.mp4.txt` is rejected: only the last extension counts |
| `Filenames.ExampleBareExtensionRejected` | app.py:64 | `mp4` with no dot is rejected |
| `Greetings.Salutation` | app.py:123-128 | "Good morning" exactly for hours 0-10, "Good afternoon" exactly for 11-16, "Good evening" for every other hour |
| `Greetings.SalutationMonotone` | app.py:123-128 | within 0-23, a later hour never gets an earlier part of the day |
| `Greetings.Greeting` | app.py:130-131 | the greeting starts with the salutation; with no user it is just the salutation; with a user, exactly `", " + username` follows it |
| `Greetings.GreetingRoundTrip` | app.py:121-131 | parsing a greeting gives back its salutation and the username, or the absence of one |
| `Accounts.First` | app.py:272 | `filter_by(...).first()` finds the first row that matches; nothing is found only when no row matches |
| `Accounts.Missing` | app.py:267 | a form field counts as missing exactly when it is absent or the empty string |
| `Accounts.RegisterEffect` | app.py:263-288 | the outcome is missing fields exactly when a field is absent or empty. It is username taken exactly when, with all fields present, the username is already used. It is email taken exactly when the username is free and the email is used. A rejection leaves the table unchanged. Success appends one row holding the hashed password |
| `Accounts.RegisterPreservesInvariant` | app.py:40-41 | registration keeps usernames and emails each unique and ids in insertion order |
| `Accounts.RegisterGrowsByOne` | app.py:285-286 | the table grows by one row on success and by none otherwise |
| `Accounts.UserStore.constructor` | app.py:38-42 | an empty user table satisfies the invariant |
| `Accounts.UserStore.Register` | app.py:264-286 | the store's new table and the returned outcome are those of `RegisterEffect`, and the invariant is kept |
| `Accounts.NextPage` | app.py:308-311 | the target is `next` when `next` is non-empty and starts with `/`, and the home URL `/` otherwise |
| `Accounts.NextPageIsLocalPath` | app.py:309-310 | the target always starts with `/` |
| `Accounts.NextPageIdempotent` | app.py:309-310 | choosing again from a chosen target gives the same target |
| `Accounts.NextPageKeepsProtocolRelative` | app.py:309 | `//example.com` passes the check, because only the first character is tested |
| `Accounts.Login` | app.py:302-314 | success exactly when the first user with that username exists and its hash checks against the password; on success the target is `NextPage(next)` and the user id belongs to a user with that name |
| `Accounts.LoginUnique` | app.py:305-306 | with unique usernames, logging in as an existing user succeeds exactly when that user's hash checks |
| `Analysis.ProcessVideo` | app.py:80-86 | the exercise is "squat" and the analysis is the fixed text, whatever the video |
| `Analysis.Prompt` | app.py:99-103 | the prompt is the fixed opening, the exercise, the fixed middle sentence, the analysis and the fixed closing request, each at its stated position |
| `Analysis.GenerateFeedback` | app.py:105-117 | never fails: the reply's content when the call succeeds; otherwise "Error generating feedback: " followed by exactly the error text |
| `Sessions.JoinPath` | app.py:227 | `os.path.join`: an absolute name replaces the folder; otherwise the path is folder + `/` + name |
| `Sessions.NotesOf` | app.py:219 | the notes are the form's `notes` field when present, and the empty string otherwise |
| `Sessions.NewSession` | app.py:235-242 | the inserted row has the given id, the caller's user id, the sanitised file name, the canned exercise and analysis, the feedback generated for them, the notes and the clock reading |
| `Sessions.UploadEffectOf` | app.py:213-250 | the gates run in order: no `video` part, an empty file name, then a name `allowed_file` rejects. Each rejection writes no file and inserts no row. Success saves exactly one file, under the sanitised name in the upload folder. It appends exactly one row: next id, the caller's user id, the sanitised name, `process_video`'s exercise and analysis, their feedback, the notes (empty when absent) and the clock reading |
| `Sessions.DisallowedNeverStored` | app.py:225-250 | a file whose name fails the gate is never stored and never yields a session |
| `Sessions.UploadPreservesIds` | app.py:243-244 | an upload keeps session ids in insertion order |
| `Sessions.SessionStore.constructor` | app.py:44-52 | an empty session table with nothing written satisfies the invariant |
| `Sessions.SessionStore.Upload` | app.py:211-250 | the returned outcome and the new table are those of `UploadEffectOf`, and the saved paths are appended to `written` |
| `Sessions.OwnedBy` | app.py:138 | `filter_by(user_id=...)` holds exactly the caller's sessions, each as often as in the table, and no other session |
| `Sessions.Detail` | app.py:144-146 | any session returned has the requested id and belongs to the caller; none is returned only when the caller owns no session with that id |
| `Sessions.DetailViaOwned` | app.py:144 | the lookup gives the same answer on the caller's sessions alone |
| `Sessions.DetailHidesOthers` | app.py:144-146 | two tables that agree on the caller's sessions give the same answer for every id, so "no such id" and "not yours" cannot be told apart |
| `Sessions.OthersSessionNotFound` | app.py:145-146 | asking for another user's session gives not-found |
| `Sessions.OwnSessionFound` | app.py:144 | asking for one's own session gives that session |
| `Sessions.InsertByNewest` | app.py:138 | inserting into a newest-first list gives a newest-first list with that one element added |
| `Sessions.SortByNewest` | app.py:138 | `order_by(created_at.desc())` is newest first and a permutation of its input |
| `Sessions.History` | app.py:138 | the dashboard list, and the identical list of app.py:406, holds exactly the caller's sessions, each as often as in the table, in non-increasing `createdAt` order |
| `Startup.Database.constructor` | app.py:414 | the flag starts clear and no tables have been created |
| `Startup.Database.EnsureTables` | app.py:416-421 | afterwards the flag is set and tables have been created exactly once; a call with the flag already set changes nothing |

## Left out

- `main.py` is not part of this model. It is an incomplete second revision of the application: it ends in a placeholder comment and calls helpers it does not define.
- The following features are not present in `app.py`, so they are not modelled: the exercise-name normaliser, the coaching personas and their selection, the 30-second video duration limit, image uploads, and session deletion. In `app.py` the exercise is always the fixed "squat".
- HTML rendering, flash messages, redirects as HTTP responses, and the inline detail page (app.py:147-209) are presentation only.
- The exercise library and form-guidelines pages (app.py:323-401) are a template and a constant table with a key lookup.
- `logout`, `load_user` and `favicon` are left out. They are framework calls with no logic of their own.
- Password hashing and checking, `secure_filename` and the chat-completion call are library or network code. They are parameters of the operations that use them, so nothing is assumed about them.
- Creating the upload folder (app.py:16-17) and saving the file are file-system effects. A save is recorded only as a path appended to `SessionStore.written`.
- Transactions, the database engine and `create_all` itself are left out. The tables are in-memory sequences, and `create_all` is counted as `Database.createAllRuns`.
- The direct `create_all` in the `__main__` block (app.py:426-427) runs outside the flag and is not modelled.
- The race on `_table_created` between concurrent requests is left out; the flag is modelled sequentially.
- `Filenames.LowerChar` lower-cases only ASCII capitals and the Kelvin sign (U+212A, which becomes `k`), and leaves every other character as it is.
- `Filenames.Lower` differs from Python's `str.lower` in two ways. Non-ASCII letters other than the Kelvin sign are not lower-cased. And U+0130 (capital I with dot above) stays one character, where Python turns it into the two characters `i` and U+0307. Neither difference changes `allowed_file`'s answer. No allowed extension contains U+0307 or any other non-ASCII character, so a name that Python's lower-casing would bring onto the allow-list is never missed.
- `Sessions.UploadEffectOf` assumes the uploaded part always carries a file name (possibly empty). A part whose name is `None` fails the `if file` test with "Invalid file type"; the model has no such value.
- `Sessions.SortByNewest` keeps table order among sessions with the same timestamp. The database leaves that order unspecified, and the contract states only the newest-first order and the permutation.
- `Accounts.Login` does not model the session cookie that `login_user` sets.
