# terminalviva in Dafny

terminalviva is a command-line client for a school web portal. This project models
its rule-bearing core in Dafny and proves properties of that model. The core is:

- **Command line** (`src/input.rs`). `InputSource::build` reads the process
  arguments from an iterator, and `process_command` dispatches on the command word.
- **Requests** (`src/api.rs`).
  - The week window of the agenda request, and the choice between that window and
    one explicit date.
  - The login data and the student id derived from a login reply.
  - Placeholder substitution in the endpoint URLs.
  - The authenticated GET. `foreplay` logs in when the token slot is empty.
  - The expired-token retry loop of the three `*_request` functions.
- **Display** (`src/display.rs`).
  - The projection of grades, absences, agenda events and lessons into table rows.
  - The canonical form of subject names and the event-code labels.
  - The case- and whitespace-insensitive subject filter.
  - The date-key sort of grades.
  - The "No records" short-circuits.
  - The sort-then-fill loop of the agenda and lesson tables.

Modules (one per concern, each in its own file):

| file | module | contents |
|---|---|---|
| `wrappers.dfy` | `Wrappers` | `Option`, `Result` |
| `strings.dfy` | `Strings` | What the source gets from the Rust standard library: `str::replace`, `split`, `parse::<i32>`, `to_lowercase` and `trim`. Each is specified, not assumed. |
| `calendar.dfy` | `Calendar` | Weekdays, and `get_week_date` over day numbers. |
| `auth.dfy` | `Auth` | `Credentials`, `LoginData`, `TokenCredential`, the classified login reply, and `login`. |
| `responses.dfy` | `Responses` | The payload records the core reads. |
| `api.dfy` | `Api` | URLs, `process_url`, `foreplay`, `get_request`, the retry loop, and the session class that owns the token slot. |
| `sorting.dfy` | `Sorting` | A stable sort by an integer key. It is specified by a reference insertion function and implemented as an in-place sort on an array. |
| `display.dfy` | `Display` | The display layer. |
| `input.dfy` | `Input` | The argument iterator, `InputSource::build`, and the command dispatch. |

Modelling choices:

- **Time.**
  - A date is a day number, and day 0 is a Monday. The current time is an input.
  - chrono's formatting of an instant is a function parameter `format`.
  - Agenda and lesson times are the instants they denote. A lesson's day becomes midnight UTC, as `from_lesson` builds it.
- **The token slot.** The global `TOKEN` is the field `Session.token`. `get_request` and `foreplay` only read the slot, so they take it as a value.
- **Server replies.** A reply to a GET arrives already classified, in the variant order of the untagged `ResponseResult`: an expired token, the expected payload, another variant, or a body that matches none.
  - The replies of one request are a finite sequence.
  - The login endpoint is an oracle: `login(k)` is the reply to the k-th login.
  - Every message the loop sends is recorded, in order.
  - The source's loop is unbounded. Here, running out of replies while the loop would continue gives the outcome `Unfinished`.
- **Panics.** A panic or `process::exit` of the core is an `Err` (or a `Failed` outcome) that names its cause.

Two facts about the code that shape the model:

- The callers of `get_request` loop with no retry limit. They log in again after every
  expired-token reply (`src/api.rs:206-233`, `242-270`, `294-323`).
- Grades are sorted by the numeric key `y*365 + m*30 + d` of their dash-separated date
  (`src/display.rs:63-90`). Within the same year this key ties the 31st of January with
  the 1st of February (`DateKeyTie`).

The source files also disagree with each other, and these call sites do not
compile as written:

- `src/input.rs:36` calls `display_grades` with one argument, but `src/display.rs:92` takes two.
- `GradeSettings` is imported from `src/input.rs`, which does not define it. The model gives it the two fields `display_grades` reads.
- `ResponseResult` (`src/response_types.rs:9-14`) lacks the variants `Absences` and `Agendas` that `src/api.rs` matches on.

The model supplies the missing `GradeSettings` fields and `ResponseResult` variants. It leaves out the two `process_command` arms that do not compile (see "## Left out").

## Model

| member | source | states |
|---|---|---|
| Calendar.Weekday.Succ | src/api.rs:68-78 | `succ` is the next weekday, and Sunday wraps to Monday. |
| Calendar.WeekWindow | src/api.rs:63-88 | The window's start is today, or Monday if today is at the weekend: a Saturday moves forward 2 days, a Sunday 1 day. The end is the Friday of the start's week, 0 to 4 days after the start. |
| Calendar.WeekWindowIsWorkingStretch | src/api.rs:68-84 | Every day skipped before the start is a weekend day. Every day of the window is a working day. The day after the end is a Saturday. |
| Calendar.GetWeekDate | src/api.rs:63-88 | The source's step-by-step computation gives exactly the window. It rolls the time and the weekday together, and its unsigned `4 - num_days_from_monday` never underflows. |
| Api.AgendaWindow | src/api.rs:279-285 | An explicit date is both ends of the window. Without one, the window is the formatted week window. |
| Api.ProcessUrl | src/api.rs:126-128 | Fills the student id in for the placeholder with Rust's leftmost, non-overlapping `replace` (`Strings.Replace`). Its meaning is stated by `Api.ProcessUrlWithoutPlaceholder`, `Api.ProcessUrlLeavesNoPlaceholder` and `Api.ProcessUrlOnePlaceholder`. |
| Api.ProcessUrlWithoutPlaceholder | src/api.rs:126-128 | A URL without `<studentID>` is returned unchanged. |
| Api.ProcessUrlLeavesNoPlaceholder | src/api.rs:126-128 | If the id shares no character with the placeholder, no placeholder is left. |
| Api.ProcessUrlOnePlaceholder | src/api.rs:126-128 | A URL with one placeholder, and no other `<` anywhere, gets the id in exactly that place. |
| Api.AbsencesUrlForStudent | src/api.rs:202 | The absences URL names the student. |
| Api.GradesUrlForStudent | src/api.rs:238 | The grades URL names the student. |
| Api.AgendaUrlForStudent | src/api.rs:288-291 | The agenda URL names the student and carries both window dates. |
| Api.Classify | src/response_types.rs:9-14 | Untagged matching tries the variants in declaration order: an expired-token shape wins over a payload shape. A body that fits no variant is a parse error. |
| Api.Foreplay | src/api.rs:131-139 | Logs in if and only if the slot is empty. The result is that login's token, or its failure. |
| Api.GetRequest | src/api.rs:90-124 | One GET with the token's student filled in, after a login when the slot is empty. Its meaning is stated by `Api.GetRequestSpec` and `Api.GetRequestConforms`. |
| Api.GetRequestSpec | src/api.rs:90-124 | With a stored token: one GET with that token, and no login. With an empty slot: one login, then a GET with the new token if the login succeeded. The URL has the token's student id filled in. |
| Api.Run | src/api.rs:206-233 | The retry loop over a script of replies. Its meaning is stated by `Api.RunStops`, `Api.RunExpiredRound`, `Api.RunRetries`, `Api.RunFollowsVerdict`, `Api.RunKeepsUrl` and `Api.RunSlot`. |
| Api.RunStops | src/api.rs:206-233 | A round without an expired token ends the loop. A failed login is fatal. The expected payload is returned. Another variant or an unreadable body is fatal. |
| Api.RunExpiredRound | src/api.rs:212-219 | After an expired token, a failed login ends the request; a successful one is followed by the loop again from the new token. |
| Api.RunRetries | src/api.rs:212-219 | An expired token causes one login with the configured credentials. If it fails, the request ends. If it succeeds, the new token replaces the slot and the same URL is requested again. |
| Api.Verdict | src/api.rs:209-232 | Reference reading of the replies: expired tokens are skipped and the first other reply decides. Only an all-expired sequence leaves the loop unfinished. |
| Api.RunFollowsVerdict | src/api.rs:206-233 | When logins succeed, the loop's outcome is exactly the verdict of its replies. |
| Api.GetRequestConforms | src/api.rs:100-112 | One `get_request` sends only logins with the configured credentials and a GET of the student's URL. |
| Api.RunKeepsUrlAfter | src/api.rs:206-233 | The same holds for the rest of the loop after messages that already conform. |
| Api.RunKeepsUrl | src/api.rs:201-235 | Every GET the loop sends asks for the same URL, and every login posts the configured credentials. This holds as long as every token names the same student. |
| Api.RunSlot | src/api.rs:212-219 | The slot only ever holds its initial token or one a later login returned. A request whose first reply is not an expired token leaves the slot as it was, even when `foreplay` logged in: `get_request` never stores a token. |
| Api.RunFillsSlotAfterExpiry | src/api.rs:215-218 | After an expired token, with logins that succeed, the slot holds a token. |
| Api.ExpiredThenExpectedTrace | src/api.rs:206-222 | From an empty slot, an expired reply then the payload sends exactly: login, GET, login, GET of the same URL. The request ends with the payload and the second token in the slot. |
| Api.Session.Fetch | src/api.rs:206-233 | The imperative loop computes the loop's outcome, the messages it sends, and the final slot. |
| Api.Session.AbsencesRequest | src/api.rs:201-235 | The absences request is the loop on the absences URL. |
| Api.Session.GradesRequest | src/api.rs:237-272 | The grades request is the loop on the grades URL. |
| Api.Session.AgendaRequest | src/api.rs:275-325 | The URL is built once from the chosen window, then the loop runs on it. |
| Auth.NewLoginData | src/api.rs:32-40 | Both `ident` and `uid` are the user name. `pass` is the password. |
| Auth.StudentIdOf | src/api.rs:174 | The slice succeeds exactly when the ident has at least two characters and both its first and last characters are one byte each. The result is two characters shorter. Otherwise the slice panics. |
| Auth.StudentIdOfRoundTrip | src/api.rs:174 | The ident is its first character, then the student id, then its last character. |
| Auth.StudentIdOfSample | src/api.rs:173-174 | `S12345S` gives `12345`. |
| Auth.LoginResult | src/api.rs:167-196 | A payload gives its two tokens and the derived id. A refusal exits. An unparseable reply panics. |
| Auth.LoginResultStudentId | src/api.rs:170-175 | A successful login's student id is the reply's ident without its end characters. |
| Auth.Login | src/api.rs:161-198 | The field-by-field filling of the token record gives the login result. |
| Strings.ReplaceWithoutOccurrence | src/api.rs:127 | `replace` leaves a string without the pattern unchanged. |
| Strings.ReplaceBySelf | src/api.rs:127 | Replacing the pattern by itself changes nothing. |
| Strings.ReplaceSingle | src/api.rs:127 | A string with one occurrence gets the replacement in its place. |
| Strings.ReplaceOnlyOccurrence | src/api.rs:127 | As above, when the pattern's first character occurs nowhere else. |
| Strings.ReplaceAfterClearPrefix | src/display.rs:40 | Matching is leftmost: an occurrence after a clear prefix is replaced, and scanning resumes after it. |
| Strings.ReplaceTwoOccurrences | src/display.rs:40 | Two occurrences, each after text free of the pattern's first character, are both replaced. |
| Strings.ReplaceInterleaved | src/display.rs:40 | Pieces free of the pattern's first character, joined by the pattern, have every occurrence replaced: the result joins the same pieces by the replacement. |
| Strings.ReplaceInterleavedEnding | src/display.rs:39-40 | Such a text whose last piece is empty ends with the pattern, and every occurrence in it is replaced. |
| Strings.ReplacePrefixComesFromInput | src/api.rs:127 | Output characters from the pattern's alphabet come from the input, not from a foreign replacement. |
| Strings.ReplaceLeavesNoOccurrence | src/api.rs:127 | With a replacement foreign to the pattern, no occurrence survives. |
| Strings.Split | src/display.rs:69 | `split` always yields at least one piece. |
| Strings.SplitPiecesFree | src/display.rs:69 | No piece contains the separator. |
| Strings.JoinSplit | src/display.rs:69 | Joining the pieces gives the string back. |
| Strings.SplitAfterPiece | src/display.rs:69 | A separator-free prefix joins the first piece. |
| Strings.SplitJoin | src/display.rs:69 | Separator-free pieces split back from their join. |
| Strings.ParseI32 | src/display.rs:70 | A parse succeeds only with a digit and a value in the `i32` range. |
| Strings.ParseDigits | src/display.rs:70 | An unsigned in-range digit string parses to its decimal value. |
| Strings.ParseDecimal | src/display.rs:70 | `parse` inverts `to_string` on in-range naturals. |
| Strings.LowerChar | src/display.rs:107 | The result is never a capital, and non-capitals are unchanged. |
| Strings.ToLower | src/display.rs:107 | Lower-casing maps each character and keeps the length. |
| Strings.ToLowerIdempotent | src/display.rs:107 | Lower-casing twice is lower-casing once. |
| Strings.TrimStartShape | src/display.rs:107 | `trim_start` drops a whitespace prefix, and what remains starts with a non-whitespace character. |
| Strings.TrimEndShape | src/display.rs:107 | `trim_end` drops a whitespace suffix, and what remains ends with a non-whitespace character. |
| Strings.TrimStartAfterWhitespace | src/display.rs:107 | Added leading whitespace does not change `trim_start`. |
| Strings.TrimEndBeforeWhitespace | src/display.rs:107 | Added trailing whitespace does not change `trim_end`. |
| Strings.TrimStartThenWhitespace | src/display.rs:107 | `trim_start` keeps trailing whitespace, unless nothing else is left. |
| Strings.TrimIgnoresPadding | src/display.rs:107 | `trim` ignores whitespace padding on both sides. |
| Strings.NormalizeIgnoresCase | src/display.rs:107 | The comparison form ignores letter case. |
| Strings.NormalizeIgnoresPadding | src/display.rs:107 | The comparison form ignores surrounding whitespace. |
| Display.StripSection | src/display.rs:38-41 | A subject that does not end with the section string is untouched. |
| Display.StripSectionSuffix | src/display.rs:38-41 | A name with its section appended gets the bare name back. |
| Display.StripSectionRemovesEveryOccurrence | src/display.rs:39-40 | A subject made of 's'-free pieces joined by the section, and ending with it, loses every occurrence of the section, not only the last one. |
| Display.AbbreviateSubject | src/display.rs:43-51 | Exactly the four long names change. Each maps to its own short form: Italian to ITALIANO, history to STORIA, sports to MOTORIA, TPSIT to TPSIT. |
| Display.AbbreviateSubjectIdempotent | src/display.rs:43-51 | A short form is never a long name. |
| Display.CanonicalSubject | src/display.rs:38-51 | The section is stripped first, then the long name is abbreviated. Its meaning is stated by `Display.StripSection`, `Display.AbbreviateSubject`, `Display.CanonicalTpsitWithSection` and `Display.TpsitKeyNeedsTrailingSpace`. |
| Display.CanonicalTpsitWithSection | src/display.rs:37-51 | The TPSIT name with its section, as the server sends it, becomes `TPSIT`. |
| Display.FromGrade | src/display.rs:37-60 | A grade row takes the canonical subject and keeps the date, value, component and weight. `Display.SimplifyGrades` states its use, one row per grade. |
| Display.TpsitKeyNeedsTrailingSpace | src/display.rs:47 | Without its trailing space, the TPSIT name passes through. |
| Display.ParseAllSpec | src/display.rs:67-71 | The collect succeeds exactly when every piece parses, and each number is its piece's value. |
| Display.DateKey | src/display.rs:67-80 | A key, when there is one, is an `i32`. |
| Display.KeyOfNumbers | src/display.rs:79-80 | The combination of the first three numbers, when defined, stays in the `i32` range. |
| Display.SplitDate | src/display.rs:69 | A `y-m-d` date with dash-free parts splits into those parts. |
| Display.ParseThree | src/display.rs:67-71 | Three parsing pieces collect into their three numbers. |
| Display.KeyOfSmallNumbers | src/display.rs:79-80 | For numbers up to a million, the key is `y*365 + m*30 + d`. |
| Display.DateKeyOfPieces | src/display.rs:67-80 | A date that splits into three small numbers gets their key. |
| Display.DateKeyOfDashed | src/display.rs:67-80 | A `y-m-d` date of small numbers has the key `y*365 + m*30 + d`. |
| Display.DateKeyOfEmpty | src/display.rs:67-71 | An empty date has no key, so the comparator panics on it. |
| Display.DateKeyOfJanuary31 | src/display.rs:79-80 | The key of `2023-01-31`. |
| Display.DateKeyOfFebruary1 | src/display.rs:79-80 | The key of `2023-02-01`. |
| Display.DateKeyTie | src/display.rs:79-80 | The 31st of January and the 1st of February have equal keys. |
| Display.SortedGrades | src/display.rs:63-90 | With at least two grades, the sort panics exactly when some date has no key. |
| Display.SortedGradesSpec | src/display.rs:63-90 | The result is a permutation of the input. It is ascending by date key, or descending when the flag is set, and grades with equal keys keep their input order. |
| Display.SortDateGrade | src/display.rs:63-90 | The in-place sort of the source computes that result. |
| Display.KeepSubject | src/display.rs:104-110 | The filter never adds grades. |
| Display.FilterByName | src/display.rs:104-110 | Without a name, every grade is kept. |
| Display.KeepSubjectMembers | src/display.rs:104-110 | A grade is kept if and only if it is in the input and its subject has the given comparison form. |
| Display.KeepSubjectNone | src/display.rs:104-110 | If no subject matches, nothing is kept. |
| Display.FilterByNameMembers | src/display.rs:104-110 | A grade is kept if and only if it is in the input and, when a name is given, its subject and the name are equal once lower-cased and trimmed. |
| Display.KeepSubjectAppend | src/display.rs:104-110 | The filter keeps input order: filtering a concatenation concatenates the filtered parts. |
| Display.FilterByNameAppend | src/display.rs:104-110 | The same holds with or without a name. |
| Display.FilterByNameIgnoresCaseAndPadding | src/display.rs:107 | A name written in lower case and padded with whitespace filters the same way. |
| Display.SimplifyGrades | src/display.rs:93-97 | One row per grade, in order. |
| Display.GradesReport | src/display.rs:92-117 | `("No records", [])` exactly for an empty response. Otherwise the table shows the returned grades. |
| Display.GradesReportFilteredAway | src/display.rs:99-112 | The empty check comes before the filter, so a filter that matches nothing gives an empty table, not "No records". |
| Display.GradesReportRows | src/display.rs:104-112 | The rows are the filtered grades, reordered. |
| Display.GradesReportRowsMatch | src/display.rs:104-112 | Every row comes from the response and matches the name filter. |
| Display.DisplayGrades | src/display.rs:92-117 | Mapping, the empty check, the filter and the sort give that report. |
| Display.AbsenceLabel | src/display.rs:140-145 | ABA0, ABR0 and ABR1 get their labels. Every other code gets the empty label. |
| Display.FromAbsence | src/display.rs:130-154 | Without a reason description, both the reason and the code are `N/A`. With one, both are taken, and a missing code panics. The label comes from the code. |
| Display.SimplifyAbsences | src/display.rs:158-162 | The collect of `from_absence` over the response. Its meaning is stated by `Display.SimplifyAbsencesSpec`. |
| Display.SimplifyAbsencesSpec | src/display.rs:158-162 | Every absence is projected in order, or the mapping panics on the first that cannot be projected. |
| Display.DisplayAbsences | src/display.rs:157-172 | "No records" exactly for an empty response. Otherwise one row per absence, in order. |
| Display.AgendaLabel | src/display.rs:191-195 | AGHW becomes Homework and AGNT becomes Nota. Every other code is kept. |
| Display.AgendaLabelIdempotent | src/display.rs:191-195 | Labelling twice is labelling once. |
| Display.FromAgenda | src/display.rs:186-199 | An event row takes the event's instant, the `Display.AgendaLabel` of its code, its notes and its author, with an empty date. `Display.SimplifyAgenda` and `Display.AgendaRowsSpec` state its use. |
| Display.SimplifyAgenda | src/display.rs:204-208 | One row per event, in order. |
| Display.DateAgenda | src/display.rs:216-218 | Each row's date is formatted from its own time, and nothing else changes. |
| Display.AgendaRowsSpec | src/display.rs:203-218 | The table shows every event once, in time order, with events at the same instant in server order, each dated from its own time. |
| Display.FillAgendaDates | src/display.rs:216-218 | The `iter_mut` loop dates every row in place. |
| Display.DisplayAgenda | src/display.rs:203-224 | "No records" for an empty response. Otherwise the rows are sorted in place, then dated. |
| Display.FromLesson | src/display.rs:238-256 | A lesson row takes UTC midnight of the lesson's day, its argument, code and author, with an empty date. `Display.SimplifyLessons` and `Display.LessonRowsSpec` state its use. |
| Display.SimplifyLessons | src/display.rs:260-264 | One row per lesson, in order, at midnight of its day. |
| Display.DateLessons | src/display.rs:272-274 | Each row's date is formatted from its own time, and nothing else changes. |
| Display.LessonRowsSpec | src/display.rs:259-274 | The table shows every lesson once (a permutation), in time order. Lessons of the same day keep server order. Each row is dated from its own time and is at the time of some lesson. |
| Display.FillLessonDates | src/display.rs:272-274 | The `iter_mut` loop dates every row in place. |
| Display.DisplayLessons | src/display.rs:259-280 | "No records" for an empty response. Otherwise the rows are sorted in place, then dated. |
| Sorting.SortByKeyMultiset | src/display.rs:65-87 | The stable sort is a permutation. |
| Sorting.SortByKeyOrdered | src/display.rs:65-87 | The stable sort's result is ordered by key. |
| Sorting.SortByKeyStable | src/display.rs:65-87 | For each key, the elements with that key keep their relative order. |
| Sorting.OrderedByFilters | src/display.rs:65-87 | Two ordered sequences that agree on each key's elements are equal. |
| Sorting.StableSortIsUnique | src/display.rs:65-87 | Any ordered arrangement that keeps each key's elements in order is the stable sort. |
| Sorting.SortByKeySpec | src/display.rs:65-87 | The stable sort is ordered, a permutation, and keeps equal keys in input order. |
| Sorting.SortInPlace | src/display.rs:65-87 | The in-place sort of an array gives the stable sort of its old contents. |
| Input.ArgIter.Next | src/input.rs:13-14 | `next` returns and consumes the first remaining argument, or gives None when none is left. |
| Input.ArgIter.Collect | src/input.rs:20 | `collect` returns every remaining argument, in order, and leaves none. |
| Input.Parse | src/input.rs:12-23 | The line parses if and only if there are at least two arguments. Otherwise the error is "no command provided". |
| Input.ParseCommandLine | src/input.rs:12-23 | The program name is dropped, the second argument is the command, and the rest are its arguments, in order. |
| Input.ParseKeepsArguments | src/input.rs:13-20 | A parse loses only the program name. |
| Input.Build | src/input.rs:12-23 | `next`, `next`, `collect` compute that parse and use the iterator up. |
| Input.Dispatch | src/input.rs:26-41 | Exactly `login`, `absence` and `grade` select their actions. Any other word is "command not found". |
| Input.DispatchParsed | src/input.rs:25-41 | A command line with a known word parses and never falls through to "command not found". |

## Left out

- HTTP traffic is not modelled: the reqwest calls in `get_request` and `login`, and the panics on a failed send or an unreadable body. Replies arrive already classified, and login is an oracle.
- serde's JSON decoding is not modelled: replies arrive already classified. `Api.Classify` states only the variant order of the untagged enums.
- Token-file I/O is left out, because it is file I/O: `update_token` and the file removal on a refused login. A refused login's `process::exit(1)` is the failure `Rejected`.
- Configuration loading, the credentials lookup and the default headers are left out. The credentials are a constant of the session, and headers are not represented.
- Real clocks and chrono are left out. `Local::now()` is an input, formatting is the parameter `format`, and parsing of `evtDatetimeBegin`/`evtDate` is left out (they arrive as the instant or day they denote).
- Table rendering (tabled, `add_default_style`) is left out: a table is the sequence of its rows.
- Grade and weight values are floating point. They are carried as opaque 32-bit patterns, so the f32/f64 mismatch between `Grade` and `SimpleGrade` is not represented.
- The actions behind `process_command` are left out; `Input.Dispatch` models the match that selects them. The `login` arm (`src/input.rs:28`) type-checks, but the `absence` arm prints `Absences` with `{}` (`src/input.rs:32`) and the `grade` arm calls `display_grades` with one argument (`src/input.rs:36`), so those two do not compile as written.
- Console output is left out: the "Re-login..." lines (`src/api.rs:134`, `213`, `249`, `301`), the login-failure messages on standard error (`src/api.rs:179`, `185`), the debug print of the agenda (`src/api.rs:310`) and the printing in `process_command`.
- Calendar.GetWeekDate: the source steps `Local::now()` by `Duration::days`, which are 24-hour steps. Across a daylight-saving change the window's first day can then fall on a Sunday or a Tuesday, and its last day on a Saturday. The model steps whole calendar days.
- Display.DateAgenda: the source formats each event in the event's own fixed UTC offset (`src/display.rs:187-188`, `216-218`). The model's `format` sees only the instant, so the offset is lost, and the parse of the offset is not modelled.
- The `lazy_static`/Mutex globals of src/main.rs are replaced by the field `Session.token` and the session's credentials. Locking is not modelled.
- Api.Session.Fetch: the source loops forever while the server answers with expired tokens. The model runs over a finite sequence of replies and reports `Unfinished` when they run out.
- Display.DateKey: an `i32` overflow of `y*365 + m*30 + d` is modelled as the panic of a debug build; a release build would wrap instead.
- Strings.ToLower, Strings.LowerChar: `to_lowercase` is modelled for ASCII and Latin-1 capitals only; other scripts and multi-character lower-case forms are not represented.
- The state after a panic or exit is not modelled (the process ends there): the outcome only names the failure.
