# Student dashboard: a verified model of its state logic

The student dashboard is a single React component, `App` in
`studentdashboard/src/App.js`. This project models what it does in memory,
with the rendering left out:

- **the directory.** A list of student records, loaded from a mock API. The list
  view filters it by course and by a case-insensitive search on name or email.
- **the add form.** Each field is validated on its own: name, email and grade. All
  failing fields are reported together. A valid draft is appended with id
  `length + 1`.
- **the mock identity provider.** `FirebaseAuthMock` accepts any non-empty
  email and password and derives a display name from the email. Logout forgets
  the user.
- **the action gate.** Viewing details needs a session; without one the
  login modal opens instead. Add Student opens the form in any case, and
  without a session it also opens the login modal. Submitting the form
  checks no session. A successful `handleLogin` resumes the details view when
  a record is selected and the add modal is closed.

Files and modules:

| file | module | contents |
|---|---|---|
| `wrappers.dfy` | `Wrappers` | `Option`, the model of `null` |
| `text.dfy` | `Text` | `trim`, the `\s` class, `toLowerCase`, `includes` and `split(sep)[0]`, each with its characterisation |
| `students.dfy` | `Students` | the record type, the seed data, the list filter and the id numbering |
| `add_form.dfy` | `AddForm` | the draft, the email shape and the per-field validation |
| `auth.dfy` | `Auth` | the `AuthMock` class, with `currentUser`, `Login` and `Logout` |
| `dashboard.dfy` | `Dashboard` | the `App` class and a few end-to-end runs |

Every field `useState` creates, except `loading`, is a field of `Dashboard.App`. Every handler is a
method. Its postcondition states the whole new state as an update of the old
`State()` snapshot. Each handler also keeps the invariant `Valid()`, which says:

- the record at index `i` has id `i + 1`;
- the session flag agrees with the provider's `currentUser`;
- the details modal is only open while a record is selected.

The pure parts are functions with lemmas: the filter, the email check and the
validation. Each one is tied to an independent statement:

- lower-casing two strings gives the same text exactly when they differ only in the case of letters, judged against the two alphabets;
- the filter is an order-preserving subsequence, and a record is in it exactly when it matches;
- `includes` holds exactly when the query occurs at some index;
- the positional email check accepts exactly the language of `^[^\s@]+@[^\s@]+\.[^\s@]+$`;
- a trimmed string is empty exactly when the string is all white space;
- each field error is present exactly when that field's rule fails.

Notes on the code as written:

- Courses are plain strings, compared with `===`, with the sentinel `'All Courses'`. They are not an enumeration.
- The search test has no special case for an empty query. `s.includes("")` is always true, and `FilterWithoutCriteria` proves that the result is then the whole directory.
- There is no separate pending-intent record. `handleLogin` opens details whenever a record is selected and the add modal is closed. Nothing ever clears `selectedStudent`, so a later login from the header re-opens the details of the last record viewed. `StaleSelectionRun` shows this. `if (showAddModal) setShowAddModal(true)` changes nothing, and the model states that the add flag is kept.

## Model

| member | source | states |
|---|---|---|
| Text.TrimStartSpec | studentdashboard/src/App.js:101-107 | removing leading white space keeps a suffix of the input. That suffix is empty or starts with a non-space, and everything removed was white space |
| Text.TrimEndSpec | studentdashboard/src/App.js:101-107 | removing trailing white space keeps a prefix of the input. That prefix is empty or ends with a non-space, and everything removed was white space |
| Text.Trim | studentdashboard/src/App.js:101-107 | defines `s.trim()` as removing the leading and then the trailing white space |
| Text.TrimSpec | studentdashboard/src/App.js:101-107 | `trim` returns a contiguous piece of the input that neither starts nor ends with white space, and everything before and after that piece is white space |
| Text.TrimEmptyIff | studentdashboard/src/App.js:101-107 | `!s.trim()` holds exactly when every character of `s` is white space |
| Text.LowerChar | studentdashboard/src/App.js:93-94 | defines ASCII lower-casing of one character |
| Text.LowerCharOfLetter | studentdashboard/src/App.js:93-94 | a capital becomes the small letter at the same place in the alphabet, and a small letter is kept |
| Text.LowerCharOfOther | studentdashboard/src/App.js:93-94 | every character that is not a capital letter is kept |
| Text.Lower | studentdashboard/src/App.js:93-94 | defines `toLowerCase` as lower-casing each character on its own |
| Text.LowerCharSameIff | studentdashboard/src/App.js:93-94 | two characters lower-case to the same character exactly when they are equal or one letter in its capital and small forms |
| Text.LowerSameIff | studentdashboard/src/App.js:93-94 | two strings lower-case to the same text exactly when they have the same length and, at each position, the characters are equal or the same letter in opposite cases |
| Text.LowerIdempotent | studentdashboard/src/App.js:93-94 | lower-casing an already lower-cased string changes nothing |
| Text.Includes | studentdashboard/src/App.js:93-94 | defines `s.includes(p)` as a scan for a position where `p` is a prefix of the rest |
| Text.IncludesIff | studentdashboard/src/App.js:93-94 | `s.includes(p)` holds exactly when `p` occurs in `s` at some index |
| Text.TextBefore | studentdashboard/src/App.js:32 | defines `split('@')[0]` as the characters before the first `@` |
| Text.TextBeforeSpec | studentdashboard/src/App.js:32 | `split('@')[0]` is a prefix of the input without `@`, and any character after it is `@` |
| Text.TextBeforeUnique | studentdashboard/src/App.js:32 | only one string meets those three properties, so they define `split('@')[0]` |
| Students.Matches | studentdashboard/src/App.js:92-95 | defines the predicate given to `filter`: the course condition and the search condition |
| Students.Filter | studentdashboard/src/App.js:91-96 | a record is in the filtered list exactly when it is in the directory, its course matches (or 'All Courses' is selected), and the lower-cased query occurs in its lower-cased name or email. The list is never longer than the directory, and each matching record is kept as many times as it occurs in the directory |
| Students.FilterIsSubsequence | studentdashboard/src/App.js:91-96 | the filtered list is the directory with records deleted, in their original order |
| Students.FilterWithoutCriteria | studentdashboard/src/App.js:91-94 | with 'All Courses' selected and an empty query, the filtered list is the whole directory, unchanged |
| Students.FilterIgnoresQueryCase | studentdashboard/src/App.js:93-94 | two queries that differ only in the case of their letters select the same list |
| Students.FilterSameLowerQuery | studentdashboard/src/App.js:93-94 | two queries that lower-case to the same text select the same list |
| Students.FilterByLowerQuery | studentdashboard/src/App.js:93-94 | lower-casing the query beforehand does not change the list |
| Students.MatchesSearchIff | studentdashboard/src/App.js:93-94 | the search condition holds exactly when the lower-cased query occurs at some index of the lower-cased name or of the lower-cased email |
| Students.SeedIdsSequential | studentdashboard/src/App.js:5-12 | the seed record at index `i` has id `i + 1` |
| Students.AppendKeepsIdsSequential | studentdashboard/src/App.js:114-119 | appending a record with id `length + 1` keeps that numbering, and the new id differs from every existing one |
| Students.SequentialIdsDistinct | studentdashboard/src/App.js:114-119 | under that numbering no two records share an id |
| AddForm.CoursesOffered | studentdashboard/src/App.js:5-14 | the default draft's course and every seed record's course are among the options after 'All Courses' |
| AddForm.InEmailPattern | studentdashboard/src/App.js:104 | defines the language of `^[^\s@]+@[^\s@]+\.[^\s@]+$`: three non-empty runs without white space or `@`, joined by `@` and `.` |
| AddForm.IsEmailShaped | studentdashboard/src/App.js:104 | defines the email test on positions: a non-empty run, `@`, then a run with a `.` strictly inside it |
| AddForm.EmailShapedMatches | studentdashboard/src/App.js:104 | every string the positional email check accepts is in the language of the address pattern |
| AddForm.MatchesEmailShaped | studentdashboard/src/App.js:104 | every `local@host.tld` built from non-empty runs without white space or `@` passes the positional check |
| AddForm.EmailShapedIff | studentdashboard/src/App.js:104 | the positional check and the regular expression accept the same strings |
| AddForm.NoAtNotEmailShaped | studentdashboard/src/App.js:104 | a string without `@` never has the email shape |
| AddForm.Validate | studentdashboard/src/App.js:100-107 | defines the error object of `handleAddStudent` from the trimmed name, email and grade and the untrimmed email's shape |
| AddForm.FieldErrors | studentdashboard/src/App.js:100-107 | each field's outcome controls only its own entry. Name maps to "Name is required" iff blank. Email maps to "Email is required" when blank, else to "Invalid email format" when badly shaped. Grade maps to "Grade is required" iff blank. The map is empty iff every check passes |
| AddForm.CollectErrors | studentdashboard/src/App.js:100-107 | building the error object one field check after another gives exactly the validation map: each field's entry is present iff its rule fails, with that rule's message |
| AddForm.NameErrorIff | studentdashboard/src/App.js:101 | the name has an error exactly when it is all white space, and the message is "Name is required" |
| AddForm.EmailErrorIff | studentdashboard/src/App.js:102-106 | the email has an error exactly when it is all white space or the untrimmed text fails the address pattern. "Required" takes precedence over "invalid format" |
| AddForm.GradeErrorIff | studentdashboard/src/App.js:107 | the grade has an error exactly when it is all white space, and the message is "Grade is required" |
| AddForm.ValidateReportsEveryField | studentdashboard/src/App.js:100-109 | all three field rules hold at once, and the error map is empty exactly for a draft whose name, email and grade are not blank and whose email matches the pattern |
| AddForm.ValidateReportsNameAndEmail | studentdashboard/src/App.js:100-107 | a blank name, a non-blank email without `@` and a filled-in grade give errors for exactly name and email. The email's message is "Invalid email format" |
| Auth.SignedInUser | studentdashboard/src/App.js:32 | the stored user keeps the email and the uid "123456". Its display name is the text before the first `@` |
| Auth.AuthMock.constructor | studentdashboard/src/App.js:25-26 | nobody is signed in at the start |
| Auth.AuthMock.IsAuthenticated | studentdashboard/src/App.js:50-52 | defines `isAuthenticated()` as a user being stored |
| Auth.AuthMock.Login | studentdashboard/src/App.js:28-39 | login succeeds iff email and password are both non-empty. On success it stores and returns the signed-in user; on failure `currentUser` is unchanged |
| Auth.AuthMock.Logout | studentdashboard/src/App.js:41-48 | after logout nobody is signed in |
| Dashboard.App.constructor | studentdashboard/src/App.js:57-74 | the initial state: empty directory, 'All Courses', empty query, signed out, all modals closed, nothing selected, empty credentials, the default draft, no errors |
| Dashboard.App.LoadStudents | studentdashboard/src/App.js:76-89 | loading replaces the directory with the seed data and changes nothing else |
| Dashboard.App.FilteredStudents | studentdashboard/src/App.js:91-96 | the rows shown are exactly the directory's records that match the current course and query |
| Dashboard.App.DetailsVisible | studentdashboard/src/App.js:457 | defines when the details modal is rendered: its flag is set and a record is selected |
| Dashboard.App.DetailsVisibleIffFlag | studentdashboard/src/App.js:457 | under the invariant, the details modal is rendered exactly when its flag is set |
| Dashboard.App.SetSearchQuery | studentdashboard/src/App.js:217 | typing in the search box changes only the query |
| Dashboard.App.SetSelectedCourse | studentdashboard/src/App.js:226 | choosing a course changes only the selected course |
| Dashboard.App.SetLoginEmail | studentdashboard/src/App.js:325 | typing the login email changes only that field |
| Dashboard.App.SetLoginPassword | studentdashboard/src/App.js:338 | typing the password changes only that field |
| Dashboard.App.SetNewStudent | studentdashboard/src/App.js:379-427 | editing the add form changes only the draft |
| Dashboard.App.HandleAddStudent | studentdashboard/src/App.js:98-128 | an invalid draft sets the error map and changes nothing else. A valid draft is appended after the unchanged old records, with id old length + 1; the add modal closes, the draft resets to the defaults and the errors clear. Ids stay sequential |
| Dashboard.App.InitiateAddStudent | studentdashboard/src/App.js:167-174 | the add modal opens in any case. The login modal opens as well iff there is no session |
| Dashboard.App.CancelAddStudent | studentdashboard/src/App.js:438 | Cancel closes the add modal and changes nothing else |
| Dashboard.App.OpenStudentDetails | studentdashboard/src/App.js:157-165 | the record is always selected. With a session the details modal opens; without one only the login modal opens |
| Dashboard.App.CloseStudentDetails | studentdashboard/src/App.js:497 | Close shuts the details modal and changes nothing else |
| Dashboard.App.OpenLoginModal | studentdashboard/src/App.js:195 | the header's Login button opens the login modal and changes nothing else |
| Dashboard.App.CancelLogin | studentdashboard/src/App.js:346 | Cancel closes the login modal and changes nothing else |
| Dashboard.App.HandleLogin | studentdashboard/src/App.js:130-150 | login succeeds iff both credentials are non-empty. On success: signed in, login modal closed, credentials cleared, details opened iff a record is selected and the add modal was closed, add flag kept, provider holds the user. On failure nothing changes |
| Dashboard.App.HandleLogout | studentdashboard/src/App.js:152-155 | the provider forgets the user and the session flag clears. Modals and selection stay as they were |
| Dashboard.DeferredDetailsRun | studentdashboard/src/App.js:130-165 | an anonymous details request opens only the login modal. After a successful login the details of that very record are visible and the login modal is closed |
| Dashboard.DeferredAddRun | studentdashboard/src/App.js:130-174 | an anonymous Add Student opens the login and add modals together. After login the add modal is still open, the login modal is closed and no details are shown |
| Dashboard.EmptyPasswordRun | studentdashboard/src/App.js:130-150 | a login with an empty password leaves the visitor signed out, in the component and in the provider |
| Dashboard.StaleSelectionRun | studentdashboard/src/App.js:139-165 | after viewing a record, closing it and logging out, a fresh login from the header re-opens that record's details |
| Dashboard.AddToSeedRun | studentdashboard/src/App.js:98-128 | adding to the loaded directory: a valid draft becomes the last record with id 7, while an invalid one leaves the directory as it was, with the form open and its errors. Either way, all ids stay distinct, nobody is signed in and the login modal is still open: submitting the form checks no session |

## Left out

- Rendering: the JSX layout, the Tailwind classes, the lucide icons, the empty-list message and the footer year. Only "details shown iff flag and selection" is kept, as `DetailsVisible`.
- Timers and promises. `fetchStudents`, `login` and `logout` each take effect as one atomic step. Interleavings in which the visitor acts while a login is pending are not modelled, such as cancelling the login modal during the 800 ms wait.
- `handleLogin`'s closure reads `selectedStudent` and `showAddModal` as they were at the click. Because each step is atomic, these are the values at the start of the method.
- The `loading` flag and the `catch` around the load. The mock never fails, and the flag only drives the spinner. `LoadStudents` models the effect's one successful outcome.
- `alert` on a failed login and `console.error` on a failed load. They are output only, and a failed `HandleLogin` returns `false` instead.
- Lower-casing covers ASCII letters only; other Unicode case mappings of `toLowerCase` are not modelled. White space for `trim` and `\s` is the full ECMAScript set. Characters are Unicode scalar values, not UTF-16 code units, which changes none of the checks.
- `FirebaseAuthMock` is a module-level singleton shared by every mount of the component. Here each `App` owns the provider it creates in its constructor. That ownership is what lets `Valid()` tie the session flag to `currentUser`.
- The course selectors offer only the listed courses. The setters do not require that, so the model admits any course text.
- The add form updates one field at a time with `{...newStudent, field: value}`. `SetNewStudent` replaces the whole draft, which covers each of those updates.
