# attendy — a Dafny model of its attendance core

attendy is an attendance tracker for NGOs, made of three parts:

- an Express/Mongoose back end;
- a Next.js admin dashboard;
- a React Native camera app.

Members punch in and out with photos. Each day a scheduled job writes an `ABSENT` record for every member without a record. Administrators register organisations and users from the dashboard. Members log in from the app.

This project models the parts that decide what ends up stored and what is shown. Each source file's behaviour becomes a Dafny module of pure functions, and lemmas then state what the code promises.

| module | models |
|---|---|
| `AbsenteeSweep` (sweep.dfy) | the daily absentee job of `service.js` |
| `AttendanceModel` (attendance.dfy) | the attendance schema |
| `UserModel`, `UserController` | the user schema, its `pre("save")` hook and `matchPassword`; `registerUser`, `loginUser` and `verifyDevice` |
| `OrgModel`, `OrgController` | both organisation schemas (`organizations.model.js` with a location, `ngo.model.js` with leaves); the organisation controller |
| `Media` | `getMediaType` of the camera app, with POSIX `path.extname` |
| `RouteGate` | the dashboard's `middleware.ts` with its `config.matcher` |
| `UploadNames` | the upload directory and file name of the multer middleware |
| `Sidebar` | the submenu toggling and highlighting of the admin sidebar |
| `NgoForm`, `UserForm`, `LoginForm` | the register-NGO and register-user wizards, and the app's login screen, each checked against the controller it posts to |
| `AttendanceSearch` | the name filter of the attendance page |
| `AttendanceCalendar` | the attendance calendar's day map, dots and label |
| `Wrappers`, `Ids`, `Responses`, `Text`, `Lists`, `FormData` | shared vocabulary: Option/Result, ids and instants, failures, JavaScript string operations, list helpers, multipart bodies |

The stores are modelled as sequences, in insertion order, so `findOne` returns the first match.

- A `Result` error is `Api(status)` when the code throws an `ApiError`.
- It is `Unhandled` when a Mongoose validation error escapes to `asyncHandler`.
- Instants are integer milliseconds since the epoch. Ids are natural numbers, so an id that Mongoose cannot cast is outside the model (see "## Left out").
- The hash, the password comparison, the clock, the random suffix and the calendar's `toDateString` are parameters of the functions that use them.

## Model

| member | source | states |
|---|---|---|
| AbsenteeSweep.UtcMidnight | service.js:11-12 | the day boundary has zero UTC hours, minutes, seconds and milliseconds, is a whole number of days, and is the last such boundary at or before the clock's instant |
| AbsenteeSweep.SameUtcDay | service.js:11-12 | two instants get the same boundary exactly when they fall in the same UTC day |
| AbsenteeSweep.AttendedUsers | service.js:21-24 | the distinct users are exactly those with a record on that day for that organisation |
| AbsenteeSweep.AbsentUsers | service.js:27-30 | the users found are exactly the users whose `organization` is the organisation and whose id is not among the attended ids |
| AbsenteeSweep.AbsentUsersInOrder | service.js:27-30 | the absentees come in collection order: they are a subsequence of the users |
| AbsenteeSweep.AbsentUsersKeepUniqueIds | service.js:27-30 | a user list without duplicate ids yields an absentee list without duplicate ids |
| AbsenteeSweep.MarkAbsent | service.js:38-43 | each inserted document belongs to that user, organisation and day, has status ABSENT and no punch data |
| AbsenteeSweep.Marks | service.js:37-45 | one mark per absentee, in the absentees' order |
| AbsenteeSweep.SweepOrganization | service.js:21-46 | processing one organisation only appends, and every appended record is an absent mark for it on that day |
| AbsenteeSweep.Sweep | service.js:17-47 | the job only appends to the ledger, and every appended record is an absent mark for today for a listed organisation |
| AbsenteeSweep.SweepMarksOnlyAbsentees | service.js:17-47 | every mark goes to a user of a listed organisation who had no record for that organisation today before the run |
| AbsenteeSweep.SweepCounts | service.js:17-47 | after the run, each (user, day, organisation) count is the old count plus one exactly when the user was an absentee today |
| AbsenteeSweep.SweepCompletes | service.js:17-47 | after the run, every member of every listed organisation has a record for today |
| AbsenteeSweep.SweepIdempotent | service.js:7-53 | running the job a second time on the same day adds nothing |
| AbsenteeSweep.SweepKeepsAtMostOne | service.js:17-47 | if nobody had two records for today in one organisation, nobody does after the run |
| AbsenteeSweep.SweepTask | service.js:8-52 | a run without a failure is the full sweep; when the job stops at organisation k, the result is the sweep of the first k organisations: every member of those has a record for today, and every appended record is an absent mark for one of them |
| AbsenteeSweep.RunSweepOnce | service.js:7-53 | each mark of a run is dated at the UTC midnight of the day the run started, and every member of each organisation processed before any failure has a record for that day |
| AbsenteeSweep.CountPositive | service.js:21-24 | a positive record count and having a record mean the same |
| AbsenteeSweep.OtherOrganizationsRecordDoesNotCount | service.js:21-30 | a punch recorded under another organisation does not spare a member the absent mark |
| AbsenteeSweep.MembershipFromUserDocument | service.js:27-30 | membership comes from the user's `organization` field, not from the organisation's `users` list |
| AbsenteeSweep.OneOfThreePunchedIn | service.js:17-47 | with one of three members punched in, the other two get marks |
| AbsenteeSweep.FirstRunOfThree | service.js:36-45 | concretely, the two absentees are appended in user order |
| AbsenteeSweep.OnlyFirstAttended | service.js:21-24 | concretely, the attended set is exactly the one punched-in user |
| AbsenteeSweep.TwoAndThreeAbsent | service.js:27-30 | concretely, the other two users are the absentees |
| AttendanceModel.ParseStatus | models/attendance.model.js:31-35 | only the three enum names parse, and each parses back to its own name |
| AttendanceModel.StatusRoundTrip | models/attendance.model.js:31-35 | every status's stored name parses back to that status |
| AttendanceModel.Validate | models/attendance.model.js:3-38 | a document saves exactly when date, user and organisation are given; each missing path and a status outside the enum is reported; the status defaults to PRESENT; the optional fields are kept |
| AttendanceModel.NoUniquenessPerDay | models/attendance.model.js:3-38 | the schema accepts two different records for the same user, organisation and day |
| UserModel.ParseRole | models/user.model.js:66-70 | only "USER" and "ADMIN" parse, each back to its own name |
| UserModel.RoleRoundTrip | models/user.model.js:66-70 | every role's stored name parses back to that role |
| UserModel.Failures | models/user.model.js:7-75 | the reported paths are exactly those whose schema rule fails |
| UserModel.Validate | models/user.model.js:7-75 | a user saves exactly when every required field is present after trimming; email, username are trimmed and lower-cased, mobileNo, fullName, designation trimmed; a given role is stored as the enum value it names and a missing one defaults to USER; device info and leaves are kept as given; isVerified defaults to false |
| UserModel.ValidatedIsStored | models/user.model.js:7-75 | every validated user satisfies the stored-user invariant |
| UserModel.PreSave | models/user.model.js:83-88 | the hook replaces the password by its hash exactly when the password was modified, and changes nothing else |
| UserModel.FindFirst | controllers/user.controllers.js:100 | `findOne` returns the first matching user, and none only when no user matches |
| UserModel.FindFirstAgrees | controllers/user.controllers.js:100 | two stores the filter cannot tell apart give the same `findOne` answer |
| UserController.View | controllers/user.controllers.js:77-79 | the selected view keeps identity, contact, device and verification fields |
| UserController.ViewHidesSecrets | controllers/user.controllers.js:77-79 | the view does not depend on the password or the refresh token |
| UserController.ViewDeterminesRest | controllers/user.controllers.js:77-79 | two users with the same view differ at most in password and refresh token |
| UserController.DerivedUsername | controllers/user.controllers.js:61 | the username is the first two characters of the full name followed by characters 8 and 9 of the mobile number, whichever exist |
| UserController.RegisterDraft | controllers/user.controllers.js:63-76 | the document created carries the derived username, the body's fields, the avatar path and the device info, and an organisation exactly when the id casts |
| UserController.RegisterUser | controllers/user.controllers.js:26-93 | 400 for a field that trims to empty; then 409 for an email or mobile conflict; then 400 without an avatar; then 500 when the schema rejects the document or its derived username is already taken; on success the user is appended with a hashed password and returned without secrets |
| UserController.RegisterSucceedsWhen | controllers/user.controllers.js:26-93 | registration succeeds whenever none of the error branches applies |
| UserController.SharedUsername | controllers/user.controllers.js:61 | two names starting with the same two letters and mobile numbers sharing digits 8 and 9 derive the same username |
| UserController.UsernameCollisionIsServerError | controllers/user.controllers.js:61-92 | after one registration, a second that clears every guard but derives the same username is answered 500 |
| UserController.MissingDesignationIsServerError | controllers/user.controllers.js:37-92 | an omitted designation passes the blank test but fails the schema, which the handler reports as 500 |
| UserController.BlankNameIsBadRequest | controllers/user.controllers.js:37-50 | a blank full name is answered 400 |
| UserController.RegisterPreservesWellFormed | controllers/user.controllers.js:51-76 | registration keeps ids, usernames, emails and mobile numbers unique and every stored user valid |
| UserController.AppendKeepsWellFormed | controllers/user.controllers.js:63-76 | appending a valid user with fresh keys keeps the store well formed |
| UserController.ReplaceKeepsWellFormed | controllers/user.controllers.js:221-235 | replacing a user by one with the same keys keeps the store well formed |
| UserController.LoginUser | controllers/user.controllers.js:95-137 | 400 exactly when a field is missing or empty; 404 exactly when no user has the mobile number; 401 exactly when the first such user's password does not match; otherwise the public view of that first user, whose password matches |
| UserController.LoginFindsTheOwner | controllers/user.controllers.js:100-107 | when the mobile number is unique to one user, login answers for that user |
| UserController.LoginFindsAppended | controllers/user.controllers.js:100-107 | a user appended with a fresh mobile number and a matching password logs in |
| UserController.RegisterThenLogin | controllers/user.controllers.js:26-137 | with a comparison that accepts a password against its own hash, a user who just registered logs in with the same mobile number and password and gets the registered view |
| UserController.VerifyDevice | controllers/user.controllers.js:216-244 | 400 when either device field is missing or when no user has the caller's id; otherwise only that user changes, becoming verified with the new device info |
| UserController.VerifyDevicePreservesWellFormed | controllers/user.controllers.js:216-244 | verifying a device keeps the store well formed |
| UserController.VerifyDeviceKeepsLogin | controllers/user.controllers.js:216-244 | verifying a device does not change whether any login succeeds |
| UserController.SameCredentialsSameLogin | controllers/user.controllers.js:95-107 | login success depends only on the users' mobile numbers and passwords |
| OrgModel.Failures | models/organizations.model.js:5-58 | the reported paths are exactly those whose rule fails under the chosen schema; an omitted working-day list is read as the empty array and never fails |
| OrgModel.Validate | models/organizations.model.js:5-62 | an organisation saves exactly when no path fails; the name is trimmed, lower-cased and non-empty; the description is kept; the working days are kept, an omitted list stored as empty; the times default to 09:30 and 17:00; holidays and users default to empty; a location exists only under the location schema and leaves only under the NGO schema |
| OrgModel.OmittedDaysAreEmpty | models/organizations.model.js:46-58 | omitting the working days validates exactly as sending an empty list, and stores an empty list |
| OrgModel.PassesExactly | models/ngo.model.js:5-59 | validation passes exactly when name and logo are present, every given working day is a weekday (an omitted list counts as empty), and the schema's own required numbers are present |
| OrgModel.ValidateOrganizations | models/organizations.model.js:20-32 | under the location schema, a saved organisation carries the given latitude, longitude and address |
| OrgModel.ValidateNgo | models/ngo.model.js:46-55 | under the NGO schema, a saved organisation carries the given privilege and other leave |
| OrgModel.ValidatedIsStored | models/organizations.model.js:5-62 | every validated organisation satisfies the stored invariant of its schema |
| OrgModel.FindById | controllers/organizations.controllers.js:56 | `findById` returns the first organisation with the id, and none only when there is none |
| OrgController.ProcessDays | controllers/organizations.controllers.js:24-26 | an array is kept; a string becomes its comma-separated pieces, each trimmed, in order: at least one piece, none holding a comma |
| OrgController.ProcessJoinedDays | controllers/organizations.controllers.js:24-26 | trimmed day names joined with commas split back into the same list |
| OrgController.OrDefault | controllers/organizations.controllers.js:41-43 | a falsy value gives the fallback, any other value is kept |
| OrgController.RegistrationDraft | controllers/organizations.controllers.js:35-44 | the document created carries name, description, logo, processed days, the times or their defaults, holidays or empty, and never a location or leaves |
| OrgController.FindByName | controllers/organizations.controllers.js:30 | the lookup finds an organisation whose stored name equals the trimmed, lower-cased query, and none only when no such organisation exists |
| OrgController.RegisterOrganization | controllers/organizations.controllers.js:6-51 | 400 when name, description, logo or working days is falsy; then 409 when the name is taken; otherwise the schema decides |
| OrgController.RegistrationNeverSucceeds | controllers/organizations.controllers.js:35-44 | under either schema, registration always fails, and past the guards it fails as an unhandled validation error |
| OrgController.WithSchemaPaths | models/organizations.model.js:20-32 | filling in the schema-only paths sets exactly those four and leaves the rest alone |
| OrgController.RegistrationDefaults | controllers/organizations.controllers.js:41-43 | once the missing paths are supplied, omitted times and holidays come out as 09:30, 17:00 and empty, and users as empty |
| OrgController.GetOrganization | controllers/organizations.controllers.js:53-66 | 404 exactly when no organisation has the id; otherwise an organisation with that id from the store |
| OrgController.ApplyPatch | controllers/organizations.controllers.js:72-76 | `$set` replaces exactly the given fields, lower-cases and trims a new name, drops a path the schema does not have, and keeps the id |
| OrgController.EmptyPatchIsIdentity | controllers/organizations.controllers.js:72-76 | an empty update changes nothing |
| OrgController.PatchIdempotent | controllers/organizations.controllers.js:72-76 | applying the same update twice equals applying it once |
| OrgController.UpdateOrganization | controllers/organizations.controllers.js:68-87 | 404 exactly when no organisation has the id; a new name another organisation already holds is an unhandled error; otherwise only that organisation changes, by the patch |
| OrgController.UpdateKeepsUniqueKeys | controllers/organizations.controllers.js:68-87 | an update keeps ids and names unique |
| OrgController.UpdateSkipsValidation | controllers/organizations.controllers.js:72-76 | an update can store a working day outside the weekday enum |
| OrgController.DeleteOrganization | controllers/organizations.controllers.js:89-100 | 404 exactly when no organisation has the id; otherwise exactly that organisation is removed and the rest keep their order |
| OrgController.DeleteRemovesExactly | controllers/organizations.controllers.js:89-100 | after deletion no organisation has the id and every other organisation is still there |
| OrgController.AddToSet | controllers/organizations.controllers.js:117 | `$addToSet` puts the id in the list once, keeping the list as a prefix |
| OrgController.AddToSetIsSetAdd | controllers/organizations.controllers.js:117 | adding twice is adding once, and a list without duplicates keeps none |
| OrgController.AddUserToOrganization | controllers/organizations.controllers.js:112-134 | 404 exactly when no organisation has the id; otherwise only its users list changes, by `$addToSet` |
| OrgController.AddExistingMemberIsNoOp | controllers/organizations.controllers.js:115-119 | adding a member already present leaves the store unchanged |
| OrgController.AddedMemberOnce | controllers/organizations.controllers.js:115-119 | after adding to a list without duplicates, the user is a member exactly once |
| Media.StripTrailingSlashes | camera-app/utils/media.ts:8-9 | the stripped path is a prefix, ends without "/", and only slashes were removed |
| Media.LastSegment | camera-app/utils/media.ts:8-9 | the last segment holds no "/", and a path without "/" is its own segment |
| Media.SegmentExtension | camera-app/utils/media.ts:8-9 | the extension is empty exactly when there is no dot, the only dot leads, or the segment is ".."; otherwise it starts with the last dot and runs to the end |
| Media.GetMediaType | camera-app/utils/media.ts:3-14 | video exactly when the extension is in the video list; image exactly when it is not and is in the image list; null otherwise |
| Media.ExtnameOfName | camera-app/utils/media.ts:8-9 | the extension of `<stem>.<suffix>` is "." followed by the suffix |
| Media.VideoBySuffix | camera-app/utils/media.ts:3-14 | `<stem>.<ext>` is a video exactly when ext is mp4, m4v or mov |
| Media.ImageBySuffix | camera-app/utils/media.ts:4-14 | `<stem>.<ext>` is an image exactly when ext is jpeg, jpg or png |
| Media.DoubleExtensionIsVideo | camera-app/utils/media.ts:8-14 | only the text after the last dot decides |
| Media.UpperCaseIsNoMedia | camera-app/utils/media.ts:3-14 | the comparison is case-sensitive |
| Media.NoDotIsNoMedia | camera-app/utils/media.ts:8-14 | a URI without a dot has no media type |
| Media.DotFileIsNoMedia | camera-app/utils/media.ts:8-14 | a name whose only dot leads has no media type |
| RouteGate.Middleware | dashboard/middleware.ts:6-27 | redirects to /login exactly when the path starts with a protected prefix and no `accessToken` cookie is set |
| RouteGate.CookieValueIgnored | dashboard/middleware.ts:16-21 | any cookie value, the empty one included, lets a request through |
| RouteGate.PrefixTestCoversAdministrator | dashboard/middleware.ts:11-13 | the middleware's own prefix test would protect "/administrator" |
| RouteGate.Gate | dashboard/middleware.ts:6-32 | with the matcher applied, a request is redirected exactly when the matcher selects it and no cookie is set |
| RouteGate.MatchedIsProtected | dashboard/middleware.ts:6-32 | every path the matcher selects is one the middleware protects |
| RouteGate.AdministratorNotGated | dashboard/middleware.ts:30-32 | "/administrator" is not selected by the matcher and passes without a cookie |
| RouteGate.AdminSubpathGated | dashboard/middleware.ts:30-32 | every path under "/admin/" is gated |
| UploadNames.MonthField | middlewares/multer.middleware.js:7-8 | the month field is two digits denoting the 1-based month |
| UploadNames.UploadDir | middlewares/multer.middleware.js:10 | the directory lies under ./public/uploads/ |
| UploadNames.UploadDirIsJoin | middlewares/multer.middleware.js:10 | the directory is the root, the year and the month joined with "/" |
| UploadNames.UploadDirReadsBack | middlewares/multer.middleware.js:7-10 | the directory splits back into its pieces, and those denote the year and the 1-based month |
| UploadNames.Filename | middlewares/multer.middleware.js:19-21 | the stored name starts with the original name and a dash |
| UploadNames.FilenameReadsBack | middlewares/multer.middleware.js:19-21 | whatever the original name holds, the stored name splits back into original name, timestamp and random suffix |
| Sidebar.Toggle | dashboard/src/components/admin/Sidebar.tsx:58-64 | toggling flips the submenu's membership of the open list and leaves every other submenu as it was |
| Sidebar.ToggleClosedAppends | dashboard/src/components/admin/Sidebar.tsx:58-64 | opening a closed submenu appends it |
| Sidebar.ToggleTwiceRestores | dashboard/src/components/admin/Sidebar.tsx:58-64 | opening and then closing restores the open list |
| Sidebar.ToggleOpenTwiceMovesLast | dashboard/src/components/admin/Sidebar.tsx:58-64 | closing and reopening moves the submenu to the end |
| Sidebar.ToggleKeepsNoDuplicates | dashboard/src/components/admin/Sidebar.tsx:58-64 | the open list never gains a duplicate |
| Sidebar.Highlighted | dashboard/src/components/admin/Sidebar.tsx:73-145 | an entry with a submenu is highlighted exactly when a link of its submenu equals the current path; any other entry exactly when its own link does |
| Sidebar.GroupIgnoresOwnHref | dashboard/src/components/admin/Sidebar.tsx:86-95 | a group whose own href equals the path, but none of whose submenu links does, is not highlighted |
| Sidebar.ExactMatchNotPrefix | dashboard/src/components/admin/Sidebar.tsx:76 | "Dashboard" is not highlighted on "/admin/attendance" although its link is a prefix |
| Sidebar.SubmenuHighlight | dashboard/src/components/admin/Sidebar.tsx:77-79 | on "/admin/user" the user-management group is highlighted and the NGO group is not |
| FormData.Lookup | dashboard/src/app/admin/register-user/page.tsx:114-123 | a found value belongs to an entry with that key, and a key without an entry finds nothing |
| FormData.LookupUnique | dashboard/src/app/admin/register-user/page.tsx:114-123 | an entry whose key no earlier entry has is what the key finds |
| FormData.IntRoundTrip | dashboard/src/app/admin/register-ngo/page.tsx:127-128 | the decimal text of an integer parses back to it |
| FormData.SingleFile | routes/organizations.routes.js:18 | `upload.single(field)` fails, as an unhandled error, exactly when a file comes under another key or two files come; it hands on nothing exactly when the body has no file, and otherwise a file sent under the field |
| FormData.SingleFileFindsIt | routes/users.routes.js:16 | the one file of a body, sent under the field, is the one handed on |
| NgoForm.DefaultsNotValid | dashboard/src/app/admin/register-ngo/page.tsx:27-72 | the default values use the schema's times and select no day, so they are not valid |
| NgoForm.NextStep | dashboard/src/app/admin/register-ngo/page.tsx:94-96 | the step advances by one up to the last step and stays there |
| NgoForm.PrevStep | dashboard/src/app/admin/register-ngo/page.tsx:98-100 | the step goes back by one down to step 0 and stays there |
| NgoForm.StepsInverse | dashboard/src/app/admin/register-ngo/page.tsx:94-100 | going forward and back returns to the same step inside the range |
| NgoForm.StepValidation | dashboard/src/app/admin/register-ngo/page.tsx:194-209 | the wizard advances exactly when the step is not the last and the fields that step checks are valid |
| NgoForm.ReachLastStepIff | dashboard/src/app/admin/register-ngo/page.tsx:194-209 | three validations reach the last step exactly when name, description and days are valid |
| NgoForm.CheckDay | dashboard/src/app/admin/register-ngo/page.tsx:358-367 | checking puts the day in, unchecking takes it out, and no other day changes |
| NgoForm.Click | dashboard/src/app/admin/register-ngo/page.tsx:357-367 | a click flips the day's membership |
| NgoForm.ClickKeepsSelection | dashboard/src/app/admin/register-ngo/page.tsx:357-367 | clicks keep the selection a duplicate-free list of weekday names |
| NgoForm.ClickTwiceRestores | dashboard/src/app/admin/register-ngo/page.tsx:357-367 | clicking an unselected day twice restores the selection |
| NgoForm.SelectionIsWeekdays | dashboard/src/app/admin/register-ngo/page.tsx:42-50 | every selection passes the schema's weekday enum |
| NgoForm.IndexedKey | dashboard/src/app/admin/register-ngo/page.tsx:115-117 | the key of a day is a `workingDays[...]` key |
| NgoForm.IndexedKeyReadsBack | dashboard/src/app/admin/register-ngo/page.tsx:115-117 | the index reads back from its key |
| NgoForm.SubmitEntries | dashboard/src/app/admin/register-ngo/page.tsx:106-128 | the body has six text fields, one entry per day, and a logo exactly when one was chosen |
| NgoForm.DaysReadBack | dashboard/src/app/admin/register-ngo/page.tsx:115-117 | the indexed entries of the body carry the selected days, in order |
| NgoForm.LeavesReadBack | dashboard/src/app/admin/register-ngo/page.tsx:127 | the privilege-leave field parses back to the number entered |
| NgoForm.HeadReadsBack | dashboard/src/app/admin/register-ngo/page.tsx:107-108 | name and description read back from the body |
| NgoForm.Submit | dashboard/src/app/admin/register-ngo/page.tsx:103-128 | a body is posted exactly when the values are valid, with a logo exactly when one was chosen |
| NgoForm.AfterPost | dashboard/src/app/admin/register-ngo/page.tsx:140-143 | a success resets the values and returns to step 0; a failure keeps the wizard as it was |
| NgoForm.SuccessStartsOver | dashboard/src/app/admin/register-ngo/page.tsx:140-143 | after a success nothing can be posted, and the first step does not advance |
| NgoForm.NoLogoIsBadRequest | dashboard/src/app/admin/register-ngo/page.tsx:110-112 | the body of a valid form without a logo, handed to the controller with no file, is answered 400 |
| NgoForm.ValidFormFailsOnCreate | dashboard/src/app/admin/register-ngo/page.tsx:103-138 | the body of a valid form, handed to the controller together with a stored file, passes its guards and fails at creation |
| NgoForm.PostOrganization | routes/organizations.routes.js:15-18 | a body with a file under any key but "file" fails in multer; a body without files reaches the handler with no logo |
| NgoForm.LogoIsUnexpectedField | dashboard/src/app/admin/register-ngo/page.tsx:110-112 | a body carrying the logo, sent under "logo", fails in multer before the handler runs |
| NgoForm.NoLogoNoFiles | dashboard/src/app/admin/register-ngo/page.tsx:106-128 | without a logo every entry of the body is text |
| NgoForm.NoLogoPostIsBadRequest | dashboard/src/app/admin/register-ngo/page.tsx:103-128 | a valid form without a logo, posted to the route, is answered 400 |
| NgoForm.PageNeverRegisters | dashboard/src/app/admin/register-ngo/page.tsx:103-138 | every body the page posts to the route fails |
| UserForm.DefaultsNotValid | dashboard/src/app/admin/register-user/page.tsx:39-69 | the default values are not valid and carry no avatar |
| UserForm.NextStep | dashboard/src/app/admin/register-user/page.tsx:159-161 | the step advances by one up to the last step and stays there |
| UserForm.PrevStep | dashboard/src/app/admin/register-user/page.tsx:163-165 | the step goes back by one down to step 1 and stays there |
| UserForm.StepsInverse | dashboard/src/app/admin/register-user/page.tsx:159-165 | going forward and back returns to the same step inside the range |
| UserForm.StepValidation | dashboard/src/app/admin/register-user/page.tsx:148-157 | step 1 advances exactly with an organisation; step 2 exactly with a valid full name and designation; other steps never |
| UserForm.ReachLastStepIff | dashboard/src/app/admin/register-user/page.tsx:148-157 | two validations reach the last step exactly when organisation, full name and designation are valid |
| UserForm.SubmitEntries | dashboard/src/app/admin/register-user/page.tsx:116-123 | the body has the six fields, the two device fields, and an avatar exactly when one was chosen |
| UserForm.Submit | dashboard/src/app/admin/register-user/page.tsx:111-123 | a body is posted exactly when the values are valid |
| UserForm.AvatarPassesUpload | routes/users.routes.js:16 | multer hands on exactly the chosen avatar, or nothing when none was chosen |
| UserForm.AfterPost | dashboard/src/app/admin/register-user/page.tsx:135-138 | a success resets the values and returns to step 1; a failure keeps the wizard as it was |
| UserForm.SuccessStartsOver | dashboard/src/app/admin/register-user/page.tsx:136-138 | after a success nothing can be posted, and the wizard is back at its first step |
| UserForm.FieldsReadBack | dashboard/src/app/admin/register-user/page.tsx:116-123 | the controller reads back every value the form sent, with the fixed device fields |
| UserForm.FieldLookups | dashboard/src/app/admin/register-user/page.tsx:116-120 | each of the six fields reads back from the body |
| UserForm.DeviceLookups | dashboard/src/app/admin/register-user/page.tsx:122-123 | the device fields read back as "modal" and "device" |
| UserForm.BlankNameAcceptedThenRejected | dashboard/src/app/admin/register-user/page.tsx:41 | a full name of two spaces passes the form and is answered 400 by the controller |
| LoginForm.Submit | camera-app/src/app/login.tsx:29-36 | a body is posted exactly when the values are valid, and then neither field is empty |
| LoginForm.PostedBodyNotBadRequest | camera-app/src/app/login.tsx:29-36 | a body the form posts is never answered 400 by `loginUser` |
| LoginForm.HandleLogin | camera-app/src/app/login.tsx:68-99 | a token is kept exactly when one came back and was saved; the app routes exactly when it kept a token and knows the verification flag, to the verified screen exactly when the flag is true; otherwise it shows an alert |
| LoginForm.ServerReply | camera-app/src/app/login.tsx:70-74 | a reply is delivered exactly when the login succeeded |
| LoginForm.LoginRoutes | camera-app/src/app/login.tsx:68-99 | a successful login keeps the token and routes by the verification flag; a failed one keeps nothing and alerts |
| LoginForm.RegisteredButCannotLogIn | camera-app/src/app/login.tsx:29-36 | a six-character password or an eleven-digit mobile number passes registration but not the login form |
| AttendanceSearch.Filter | dashboard/src/app/admin/attendance/page.tsx:69-71 | the shown records are exactly the fetched ones whose lower-cased full name contains the lower-cased query |
| AttendanceSearch.FilterIsSubsequence | dashboard/src/app/admin/attendance/page.tsx:69-71 | the shown records keep the fetched order |
| AttendanceSearch.EmptyQueryShowsAll | dashboard/src/app/admin/attendance/page.tsx:69-71 | an empty query shows every record |
| AttendanceSearch.QueryCaseIgnored | dashboard/src/app/admin/attendance/page.tsx:69-71 | the query's case does not matter |
| AttendanceSearch.TypingNarrows | dashboard/src/app/admin/attendance/page.tsx:69-71 | typing more only removes records from the list |
| AttendanceCalendar.AttendanceMap | dashboard/src/components/shared/AttendaceCalender.tsx:38-40 | a day is in the map exactly when some record falls on it, and it maps to the status of the last such record |
| AttendanceCalendar.LaterRecordWins | dashboard/src/components/shared/AttendaceCalender.tsx:38-40 | of two records on the same day, the later one shows |
| AttendanceCalendar.TileContent | dashboard/src/components/shared/AttendaceCalender.tsx:46-59 | a dot appears exactly when the day's status is non-empty; it is titled with the status and green exactly for "present" |
| AttendanceCalendar.Label | dashboard/src/components/shared/AttendaceCalender.tsx:68 | the label is the day's status, or "No Record" when there is none or it is empty |
| AttendanceCalendar.LabelAgreesWithTile | dashboard/src/components/shared/AttendaceCalender.tsx:46-68 | the label names the dot's title, and says "No Record" exactly where there is no dot |
| AttendanceCalendar.LedgerDotsAreRed | dashboard/src/components/shared/AttendaceCalender.tsx:46-59 | for records with the ledger's status names, every recorded day gets a dot and no dot is green |
| AttendanceCalendar.PresentDrawnRed | dashboard/src/components/shared/AttendaceCalender.tsx:52 | a PRESENT day is drawn red |

## Left out

- Scheduling: the cron schedule and its time of day are not modelled. The run is a function of the instant it starts at.
- Logging: `console.log` output is not modelled.
- insertMany: `insertMany` with `ordered: false` is modelled as inserting every mark. Per-document write errors cannot occur in the model, because there is no unique index.
- Populate: `populate` and the `users` array loaded by `Organization.find().populate` are not modelled. The sweep never reads them.
- Tokens: `generateAccessAndRefreshToken`, `refreshAccessToken`, `logoutUser`, `changeCurrentPassword` and the token methods of the user schema are left out. They concern JWT signing, which is foreign code.
- bcrypt: hashing and comparison are the parameters `hash` and `compare`. The salt is not modelled.
- loginUser: the second `findById` that answers 400 is not modelled, because the user it looks up was just found. The tokens and cookies of the reply are not modelled either.
- asyncHandler: `utils/asyncHandler.js` is not part of this model. An error escaping a handler is the failure `Unhandled`, without a status.
- getAllOrganizations: it only returns the store, so it is not modelled. The attendance, photo and punch-in controllers are outside the modelled core.
- Coordinates: coordinates are opaque integers. No arithmetic is done on them in the core.
- Holidays: holidays are instants in milliseconds, as the `[Date]` schema type stores them. The casting of request strings to `Date` is not modelled.
- Strings: `toLowerCase` is modelled on ASCII letters only. Unicode case mapping is not modelled.
- String lengths: lengths and slices count characters, while JavaScript's `length`, `slice` and zod's `min`/`max` count UTF-16 code units. For text outside the Basic Multilingual Plane (an emoji is one character but two units), the length checks of `UserForm.Valid`, `NgoForm.Valid` and `LoginForm.Valid` and the slices of `UserController.DerivedUsername` differ from the source.
- Dates: the calendar's `toDateString` is the parameter `dayKey`, because time zones and formatting belong to the runtime.
- Email check: zod's email check is the parameter `isEmail` of the register-user form.
- Rendering: React rendering, toasts, loading state, image previews and the fetching of organisation lists are left out. Only the values that decide what is posted, stored or shown are modelled.
- Routes: of the route files only the multer field of the two registration routes is modelled (`FormData.SingleFile`). `verifyJWT` and the rest of the route table are not modelled.
- OrgController.GetOrganization: the `:id` parameter is an id of the model, so a malformed id, which makes `findById` throw a `CastError` that escapes as an unhandled error instead of a 404, is not modelled.
- OrgController.UpdateOrganization: the same cast failure of a malformed `:id` is not modelled.
- OrgController.DeleteOrganization: the same cast failure of a malformed `:id` is not modelled.
- OrgController.AddUserToOrganization: the same cast failure of a malformed `organizationId`, and of a `userId` that `$addToSet` cannot cast, is not modelled.
- NgoForm.LeavesReadBack: leave counts are integers in the model. The page's `Number()` and zod's `min(0)` also admit fractions such as 1.5, which Mongoose would store; their decimal text is not modelled.
- OrgModel.ValidateNgo: the leave counts are integers, so fractional leave counts that the Number schema type accepts are not modelled.
- Multer: more than one file under the accepted field is an error in the model, as multer's `maxCount` of 1 makes it; multer's other limits are not modelled.
- OrgController.FindByName: models the query with Mongoose's setters applied to the filter value. The name is looked up trimmed and lower-cased, as the schema stores it.

## Notes on the source

The model records these behaviours of the code as written:

- Registering an organisation always fails:
  - `OrgController.RegistrationNeverSucceeds` proves it.
  - The controller never gives the location that `organizations.model.js` requires, nor the leaves that `ngo.model.js` requires.
  - The controller imports `../models/Organizations.model.js`. This model covers both schemas that name could resolve to.
- The NGO page can never register an organisation through its route (`NgoForm.PageNeverRegisters`):
  - The page sends the logo under "logo", while `routes/organizations.routes.js` mounts `upload.single("file")`. Multer rejects such a body before the handler runs (`NgoForm.LogoIsUnexpectedField`).
  - The form treats the logo as optional, but without one the controller answers 400 (`NgoForm.NoLogoPostIsBadRequest`).
- `deleteOrganization` and `addUserToOrganization` are exported by the controller but not mounted by `routes/organizations.routes.js`.
- Step 1 of the NGO wizard is titled "Location" but checks the description.
- A password of six or seven characters, or a mobile number longer than ten digits, passes registration. The app's login form then refuses it (`LoginForm.RegisteredButCannotLogIn`).
- A full name of blank characters passes the form and is refused by the controller (`UserForm.BlankNameAcceptedThenRejected`).
- The calendar compares against lowercase "present", but the ledger stores "PRESENT". Every recorded day is drawn red (`AttendanceCalendar.LedgerDotsAreRed`).
- The matcher does not send "/administrator" to the middleware, although the middleware's prefix test would protect it (`RouteGate.AdministratorNotGated`).
- `updateOrganization` does not run validators, so an update can store a day outside the weekday enum (`OrgController.UpdateSkipsValidation`).
- The attendance schema has no uniqueness per user and day (`AttendanceModel.NoUniquenessPerDay`). The sweep keeps at most one record per user and day only when the ledger already had that property (`AbsenteeSweep.SweepKeepsAtMostOne`).
