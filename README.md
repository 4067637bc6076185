# classflow-api group engine in Dafny

This project models the core of a student-group scheduling backend. Users join
academic groups with a join code, leave them, and a group's leader uploads its
timetable once. The database tables become maps inside a `Service` object, so every
read and write is visible to the verifier. The project covers:

- **GroupService** (`GroupService.dfy`): the group engine as a class. Its state is
  `groups` (group id to `Group`), `members` (user id to group id), `schedules` (the
  schedule rows in insertion order), the id counter `nextGroupId`, and the read-only
  reference data (`programs`: program to faculty, `faculties`, `subjectTypes`). The
  methods are `Create`, `JoinToGroup`, `LeaveFromGroup`, `UploadSchedule`,
  `GetAllSchedulesByGroupIdAndUserId`, `GetById`, `GetByShortName` and `GenCode`.
  `Valid()` is the class invariant: each group's `numberOfPeople` equals the number of
  its membership rows, every membership points at a stored group, ids stay below the
  counter, and short names are unique. Every state-changing method keeps it.
- **GroupRequest** (`GroupRequest.dfy`): the upload request body. `Validate` is the
  shape check. `TransformToEntities` is the triple loop that flattens weeks, days and
  subjects into schedule rows. Its day loop and its subject loop are the methods
  `AppendWeek` and `AppendDay`, which append to the same growing sequence.
- **GroupRepository** (`GroupRepository.dfy`): the summary query. It builds the
  optional `WHERE` conditions with numbered `$k` placeholders and a parallel argument
  list, and then keeps the joined rows the conditions select.
- **UserService** (`UserService.dfy`): the partial settings update, and the lookup
  classification ("no rows" means not found, any other store error is wrapped).
- **Middleware** (`Middleware.dfy`): the `Authorization: Bearer <token>` parse and the
  role gate.
- Shared pieces: `Wrappers.dfy` (Option, Result, the three outcomes of a store
  lookup), `Strings.dfy` (Go's `strings.Split` and `strings.Join`, and decimal
  rendering, with the split/join round trip proved), `ScheduleEntity.dfy` (the
  schedule row) and `DomainErrors.dfy` (the error variants).

The group service file does not compile as it stands. `LeaderID` is a `*uint64` but is
compared with a plain id. The create request has no `LeaderID`. `Group` has no
`Code`. Three of the errors it returns are not declared. The model follows the file's
evident intent: the leader is optional, the code is stored in the group, and
`WrongGroupCode`, `ThisGroupDoesNotBelongToYou` and `YouArentMember` are added to the
error datatype. `Create` takes the leader's user id as part of its request. The model also
makes these choices, each following the code:

- Leaving does not clear the leader or change any role.
- There is no group deletion.
- The schedule read passes no parity filter.
- The join code has four characters and nothing in the code makes it unique.

The user entity file lacks `NotificationDelay` and `TelegramUsername`. The user
repository reads and writes both, so the model's `User` has them.

Go's `uint64` ids are modelled as unbounded `nat`. The store calls inside the engine
cannot fail, because maps cannot fail. The separate classification functions
(`ClassifyLookup`, `ClassifyGroupLookup`) model the store-error paths.

## Model

| member | source | states |
|---|---|---|
| Middleware.ParseAuthorization | internal/api/http/middleware/middleware.go:16-28 | An empty header gives "authorization header is required". An accepted header is exactly `"Bearer "` followed by the token passed on. |
| Middleware.ParseAuthorizationAccepts | internal/api/http/middleware/middleware.go:22-28 | The parse returns token `t` iff the header is `"Bearer " + t` and `t` has no space, which is the case iff the space split gives exactly two parts with `"Bearer"` first. |
| Middleware.ParseAuthorizationRejects | internal/api/http/middleware/middleware.go:22-26 | A non-empty header without the prefix `"Bearer "`, or whose rest contains a space, is refused with the format error. |
| Middleware.ParseAuthorizationEmptyToken | internal/api/http/middleware/middleware.go:22-28 | `"Bearer "` passes, with the empty token. |
| Middleware.ParseAuthorizationRefusedExamples | internal/api/http/middleware/middleware.go:22-26 | `"Bearer"`, `"bearer x"`, `"Bearer a b"` and `"Bearer  x"` are refused with the format error. |
| Strings.Split | internal/api/http/middleware/middleware.go:22 | Go's `strings.Split` with a one-character separator always gives at least one piece. |
| Strings.SplitPiecesHaveNoSeparator | internal/api/http/middleware/middleware.go:22 | No piece contains the separator. |
| Strings.SplitJoinRoundTrip | internal/api/http/middleware/middleware.go:22 | Joining the pieces with the separator gives back the original string. |
| Strings.SplitWithoutSeparator | internal/api/http/middleware/middleware.go:22 | A string without the separator splits into itself alone. |
| Strings.SplitAtFirstSeparator | internal/api/http/middleware/middleware.go:22 | The piece before the first separator comes first, followed by the pieces of the rest. A leading separator therefore gives an empty first piece. |
| Strings.Join | internal/repository/group.go:190 | Go's `strings.Join`: no parts give the empty string and one part gives that part. Otherwise the result starts with the first part. |
| Strings.JoinLength | internal/repository/group.go:190 | The joined text is as long as all the parts plus one separator between each two neighbours. |
| Strings.NatToString | internal/repository/group.go:178 | `%d` of a non-negative count gives a nonempty string of decimal digits. |
| Strings.NatToStringValue | internal/repository/group.go:184 | The rendering denotes the number it was made from and has a leading zero only for zero. |
| Strings.NatToStringInjective | internal/repository/group.go:178-184 | Different counts render differently, so the two placeholders never coincide. |
| Middleware.ParseAuthorizationMessages | internal/api/http/middleware/middleware.go:17-25 | A refused empty header gets "authorization header is required". Any other refused header gets "authorization header must be in the format 'Bearer <token>'". |
| Middleware.AuthMessagesDistinct | internal/api/http/middleware/middleware.go:18-24 | The two refusal texts differ, so each names its refusal. |
| Middleware.HasRole | internal/api/http/middleware/middleware.go:54-59 | The linear search finds the role iff some listed role equals it. |
| Middleware.CheckRole | internal/api/http/middleware/middleware.go:42-61 | A missing role and a non-string role are refused before any comparison. Otherwise the request passes iff the role string is one of the listed roles, else it gets "no permission". |
| Middleware.CheckRoleMessages | internal/api/http/middleware/middleware.go:42-61 | The refusal texts come in the order of the checks: "role not found in context", then "role type is invalid in context", then "you do not have permission to access this resource". |
| Middleware.EmptyRoleListForbids | internal/api/http/middleware/middleware.go:54-61 | With no roles configured, every request is refused. |
| GroupRequest.Validate | internal/api/http/v1/group/request.go:40-67 | A week count other than 1 or 2 is refused. One week passes iff it has 1 to 7 days. Two weeks pass iff the first has at most 7 days, the second has 1 to 7 days, and their parities differ. A bad week count gives the week-count error, a bad day count the day-count error, and, with valid day counts, equal parities the parity error. |
| GroupRequest.ValidateMessages | internal/api/http/v1/group/request.go:40-63 | A refusal's text is the week-count message for a bad week count. With two weeks and valid day counts it is the parity message. Otherwise it is the day-count message. |
| GroupRequest.ValidationMessagesDistinct | internal/api/http/v1/group/request.go:41-61 | The three refusal texts differ, so each names its kind. |
| GroupRequest.ValidateDependsOnlyOnShape | internal/api/http/v1/group/request.go:39-67 | Requests with the same week count, day counts and parity flags get the same verdict. Day numbers and subjects are never looked at. |
| GroupRequest.ValidateAcceptsEmptyFirstWeek | internal/api/http/v1/group/request.go:56-58 | As written, two weeks with an empty first week and a one-day second week of the other parity pass. |
| GroupRequest.ValidateIntended | internal/api/http/v1/group/request.go:51-63 | Corrected check: a request passes iff it has 1 or 2 weeks, every week has 1 to 7 days, and two weeks differ in parity. Whatever it accepts, the written check accepts too. |
| GroupRequest.ValidateIntendedAcceptance | internal/api/http/v1/group/request.go:51-58 | The corrected check accepts exactly what the written check accepts, minus two-week requests with an empty first week. |
| GroupRequest.TransformToEntities | internal/api/http/v1/group/request.go:69-93 | The triple loop outputs, week after week and day after day, one row per subject. This is the reference flattening `WeeksEntries`. |
| GroupRequest.AppendWeek | internal/api/http/v1/group/request.go:73-90 | The loop over a week's days appends, day after day, the rows of each day to the sequence built so far. |
| GroupRequest.AppendDay | internal/api/http/v1/group/request.go:74-89 | The loop over a day's subjects appends one row per subject, in order, each with the week's parity and the day's number. |
| GroupRequest.TransformLength | internal/api/http/v1/group/request.go:72-91 | The output has exactly as many rows as the request has subjects. |
| GroupRequest.TransformAt | internal/api/http/v1/group/request.go:72-90 | Subject `k` of day `d` of week `w` is at offset (subjects of earlier weeks) + (subjects of earlier days of that week) + `k`. That row carries the group id argument, the week's parity, the day's number and the subject's building, type, name, teacher, room, start and end unchanged. |
| GroupRequest.TransformCarriesGroupId | internal/api/http/v1/group/request.go:75-76 | Every output row carries the group id argument. |
| GroupRepository.FilterConditions | internal/repository/group.go:177-187 | There is one condition per nonempty filter field and none for an empty one. The faculty condition comes first, and only at position 0. |
| GroupRepository.BuildSummaryQuery | internal/repository/group.go:157-191 | Condition `k` (counting from 0) reads `column = $(k+1)` and `args[k]` is its value. The numbers of conditions and arguments are equal. With no conditions there is no `WHERE`. Otherwise one `WHERE` is followed by the conditions joined with `AND`. |
| GroupRepository.BuildSummaryQueryExamples | internal/repository/group.go:177-191 | An empty filter gives no conditions. Both fields give faculty then program, rendered `f.faculty_name = $1 AND p.program_name = $2`. |
| GroupRepository.FilterMeaning | internal/repository/group.go:177-187 | A row satisfies the built conditions iff its faculty name equals the faculty filter when that is given, and its program name equals the program filter when that is given. |
| GroupRepository.SummaryGroupsMeaning | internal/repository/group.go:157-223 | A summary is returned iff it is a row of the join matching the filter, so every returned summary has the requested faculty and program. |
| GroupRepository.GetSummaryGroups | internal/repository/group.go:156-226 | The query text is the base select, followed, when any filter field is given, by one `WHERE` and the rendered conditions joined with `AND`. Argument `k` is condition `k`'s value. The result is, in table order, the joined rows that the conditions select. |
| GroupRepository.ScanMatching | internal/repository/group.go:203-223 | The scan loop collects, in table order, exactly the joined rows that satisfy every condition. |
| UserService.ClassifyLookup | internal/domain/user/service.go:63-97 | "No rows", and only "no rows", becomes `ErrUserNotFound`. Any other store error is wrapped with the lookup's context. A found row is returned as is. |
| UserService.ApplyPartial | internal/domain/user/service.go:48-58 | Full name, notification delay and notifications flag are overwritten exactly when the request carries them. Id, email, password hash, role and telegram fields are kept. |
| UserService.ApplyEmptyPartialIsIdentity | internal/domain/user/service.go:42-60 | A request with every field nil writes the fetched record back unchanged. |
| UserService.ApplyPartialIdempotent | internal/domain/user/service.go:42-60 | Applying the same request twice equals applying it once. |
| UserService.Service.GetById | internal/domain/user/service.go:87-97 | A stored user is returned. A missing one gives `ErrUserNotFound`. |
| UserService.Service.UpdatePartial | internal/domain/user/service.go:42-60 | A missing user gives `ErrUserNotFound` and nothing is written. Otherwise only that user's record changes, to the merged record. |
| UserService.UpdatePartialTwice | internal/domain/user/service.go:42-60 | Two identical settings requests leave the store as one does. |
| GroupService.ClassifyGroupLookup | internal/domain/group/service.go:215-260 | For each of the three group lookups (by id, by short name, the student's group), "no rows", and only "no rows", becomes `ErrGroupNotFound`. Other store errors are wrapped with the lookup's context: "failed to get group", or "failed to get student group" for the student's group. A found row is returned as is. |
| GroupService.MembersOfInsert | internal/domain/group/service.go:281-288 | A new membership row adds its user to its own group's member set, which grows by one, and leaves every other group's set alone. |
| GroupService.MembersOfRemove | internal/domain/group/service.go:87-93 | Deleting a membership row removes its user from its group's member set, which shrinks by one, and leaves every other group's set alone. |
| GroupService.CreateAsWrittenBreaksCount | internal/domain/group/service.go:187-206 | As written, `Create` for a leader who already has a membership stores a group counting one person with no member rows. The count invariant then fails. |
| GroupService.EntriesOfMembers | internal/domain/group/service.go:113-118 | The rows read back for a group are exactly the stored rows that carry that group's id. |
| GroupService.EntriesOfAppend | internal/domain/group/service.go:148-150 | Appending a batch to the schedule store adds that batch's share to each group's read-back, after what was there. |
| GroupService.EntriesOfOwnBatch | internal/domain/group/service.go:148-150 | A batch whose rows all carry group `g`, as the request flattening produces, is read back whole for `g`. |
| GroupService.Service.constructor | internal/domain/group/service.go:56-71 | The service starts with empty tables and the given reference data, and satisfies the invariant. |
| GroupService.Service.GenCode | internal/domain/group/service.go:292-305 | The code has `size` characters. Character `i` is the alphabet's character at the `i`-th random index, so every character is in the 62-character alphabet. |
| GroupService.Service.GetById | internal/domain/group/service.go:249-260 | A stored group is returned. An unknown id gives `ErrGroupNotFound`. |
| GroupService.Service.GetByShortName | internal/domain/group/service.go:215-226 | It succeeds iff some stored group has that short name, and then returns such a group. Otherwise it gives `ErrGroupNotFound`. |
| GroupService.Service.Create | internal/domain/group/service.go:162-208 | It refuses, in this order: a taken short name, an unknown program, an unknown faculty, a program of another faculty, and a leader who is already a member. On refusal nothing changes. On success it returns a fresh id for a group with the leader, faculty, program, short name, the 4-character generated code, one person and no schedule, adds the leader's membership, and keeps the invariant. |
| GroupService.Service.JoinToGroup | internal/domain/group/service.go:262-290 | It refuses, changing nothing and in this order: a user who already has a membership, an unknown group, and a wrong code. Otherwise it adds exactly that membership and raises exactly that group's count by one. The invariant holds. |
| GroupService.Service.LeaveFromGroup | internal/domain/group/service.go:73-94 | A user with no membership gets `ErrMemberNotFound` and nothing changes. Otherwise exactly that membership goes and that group's count drops by one. The leader and the schedule flag are untouched, and the invariant holds. |
| GroupService.Service.FirstEntryErrorMeaning | internal/domain/group/service.go:136-146 | The rows pass iff every row passes. Otherwise the error is that of a failing row whose predecessors all pass. |
| GroupService.Service.CheckReferences | internal/domain/group/service.go:136-146 | The loop returns the error of the first refused row: an unknown subject type first, then a building id that is not a faculty id. It returns none if all pass. |
| GroupService.Service.UploadSchedule | internal/domain/group/service.go:122-159 | It refuses, changing nothing and in this order: an unknown group, an uploader who is not the leader, a group that already has a schedule, and the first row with a bad reference. Otherwise it appends exactly the rows, in order, and sets only that group's schedule flag. |
| GroupService.Service.GetAllSchedulesByGroupIdAndUserId | internal/domain/group/service.go:96-119 | An unknown group gives `ErrGroupNotFound`. A reader with no membership, or a membership elsewhere, gives `ErrYouArentMember`. Otherwise it returns exactly the stored rows of that group, in store order and with repeats, so a row is in the result iff it is stored with that group's id. |
| GroupService.UploadTwice | internal/domain/group/service.go:132-158 | After a successful upload, a second upload by the same user fails with `ErrGroupAlreadyHasSchedule`. The store then holds the first batch only. |
| GroupService.UploadThenRead | internal/domain/group/service.go:96-159 | After a request is flattened for a group and uploaded by its leader, any member of that group, leader or student, reads back the group's earlier rows followed by exactly the uploaded rows, in order. Any reader who is not a member of that group gets `ErrYouArentMember`. |
| GroupService.JoinThenLeave | internal/domain/group/service.go:73-94 | A successful join followed by a leave restores the membership and group tables exactly. |
| GroupService.LeaveTwice | internal/domain/group/service.go:73-79 | A second leave in a row fails with `ErrMemberNotFound`. |
| GroupService.CreateTwice | internal/domain/group/service.go:163-166 | After a successful create, a second create with the same short name fails with `ErrGroupAlreadyExists`. |

## Findings

| source | as written | input that shows it | evidently intended | confidence | as-written member | corrected member |
|---|---|---|---|---|---|---|
| internal/api/http/v1/group/request.go:56 | the two-week "at least one day" test checks `Weeks[1]` twice, so an empty first week passes | two weeks: the first with no days, the second with one day and the other parity | both weeks need at least one day | high (not executed) | GroupRequest.ValidateAcceptsEmptyFirstWeek | GroupRequest.ValidateIntended |
| internal/domain/group/service.go:198-206 | the group row is written before the leader's membership row, with no transaction; if the membership insert fails because the leader already has a membership (one row per user), the call fails but the group stays | a leader who is already a member of group 0 creates a group with a new short name | the call fails and nothing is written, so the count matches the member rows | medium (not executed; depends on the membership table's unique user id) | GroupService.CreateAsWrittenBreaksCount | GroupService.Service.Create |

## Left out

- HTTP plumbing is not modelled: gin routing, binding, status codes, and the `c.Set`/abort side effects in the middleware. Token verification is foreign code, so the model stops at the token the parse hands on.
- SQL and pgx are not modelled. Tables are maps and sequences. The summary query's base text has its layout whitespace collapsed. The database's own evaluation of `WHERE` is merged into the scan loop of `GetSummaryGroups`.
- Transactions and concurrency are not modelled. The code is sequential and has none. Store faults in the middle of an operation are not modelled. Four calls treat any lookup error as "absent" and carry on, and the model does not capture that a store fault takes those paths. They are:
  - `JoinToGroup`'s membership lookup (service.go:263-266), where a fault reads as "not a member";
  - `Create`'s short-name lookup (service.go:163-166), where a fault reads as "name free";
  - `LeaveFromGroup`'s membership lookup (service.go:74-79), where a fault is ignored and the leave goes on with the zero group id;
  - the schedule read's membership lookup (service.go:102-107), where a fault is likewise ignored and the zero group id then fails the membership test.
- Clock values (`CreatedAt`) are not modelled, nor the building coordinates, which are floating point.
- GroupService.Service.GenCode: the crypto source is the sequence `draws` of indices below 62, and a failure of that source is not modelled. Nothing is claimed about the uniqueness or the distribution of codes.
- GroupService.Service.Create: the leader's membership conflict is checked before any write. This is the corrected behaviour from the table above, not the order of the code as written.
- GroupService.Service.UploadSchedule: as written, each row's building id is checked against the faculty ids, and a miss gives `ErrFacultyNotFound`. It is not checked against buildings.
- GroupService.Service.GetAllSchedulesByGroupIdAndUserId: the rows are returned without the building join and without a parity filter, since the group service passes none.
- GroupService.Service.GetAllSchedulesByGroupIdAndUserId: the schedule query behind the read is not part of this model, and a query without `ORDER BY` promises no order. The model assumes it returns a group's rows in insertion order. The order in this member's result, and in the "earlier rows, then the uploaded rows" result of `GroupService.UploadThenRead`, rests on that assumption. Which rows are returned, with their repeats, does not.
- One-line pass-throughs carry no logic of their own and are not modelled: the group service's `Update`, `GetLeaderGroupsByUserId` and `GetAllGroupsSummary` (the summary query itself is modelled), and the user service's `Update`.
- The user service's `Create` wraps a store error as "failed to create user" and otherwise returns the new id. It is not modelled, because the insert behind it is repository code.
- The group service's `GetStudentGroupByUserId` is a third group lookup. Its error classification is modelled by `ClassifyGroupLookup` with the `StudentGroup` kind. The repository query it runs, the student's group with its faculty and program names, is not modelled.
- Integer widths are not modelled. Ids are `uint64` and the people count is a Go `int`. Both are unbounded here, and no wrap-around is modelled. Under the invariant the count is at least one whenever it is decremented.
- The group handler's interface (`Delete`, and a join without a code) does not match the service. It is not modelled, and there is no group deletion.
