# Paginated read-through cache of the ERP backend, in Dafny

This project models the core of an educational ERP backend (NestJS, Prisma, Redis): the
teacher and student services and the phone-number validator of the create requests.

- **Listings.** `findAll(page, limit)` serves a page from Redis under the key
  `teachers:page:{page}:limit:{limit}` (or `students:…`). On a miss it queries the `user` table
  with `skip = (page - 1) * limit`, `take = limit`, filtered on the role. It stores the result
  with no expiry and returns it. TeacherService caches the data array and wraps it in a new
  envelope. StudentService caches the whole envelope, with `meta.studentCount`, and replays it
  verbatim.
- **Writes.** `create`, `update` and `remove` first check a username for uniqueness
  (`Conflict`) or an id for existence (`NotFound`). Then they change the table and delete every
  key matching `teachers:page:*` (or `students:page:*`).
- **Validator.** `validate` accepts `+998` followed by nine digits through four checks on the
  JS number value of the string, its length and its first four characters.

The Redis client and the Prisma `user` delegate are objects shared by both services:
`RedisCache.Redis` holds a `map<string, Json>` and `Records.UserTable` holds an ordered
`seq<User>`. The service classes hold both and say, method by method, what the key space and
the table are afterwards. `UserTable.roundTrips` is a ghost counter of database queries, so
"a hit sends no query" can be stated. JSON text is identified with the value it encodes.

The cache's invariant is `Listings.Coherent`: every cached page of either resource equals what
a fresh query of the current table would produce. Every operation preserves it
(`TeacherMissKeepsCoherent`, `TeacherWriteKeepsCoherent` and the student twins), and on a
coherent cache `findAll` returns the current page whether it hits or misses. There is one
exception. `update` and `remove` check existence on `user_id` alone, whatever the role. So a
student can be renamed or deleted through TeacherService, which purges only teacher pages.
`CrossRoleRenameLeavesStalePage` exhibits a coherent cache that this leaves stale, and
`CrossRoleRenameLeavesStaleTeacherPage` does the same the other way round. The methods
therefore promise coherence only when the target does not have the other resource's role.
`CrossRoleRemoveLeavesStalePage` shows the same for a student deleted through TeacherService.
`TeacherService.UpdateRoleChecked` and `TeacherService.RemoveRoleChecked` are the corrected
update and remove, checking the id together with role TEACHER as `findOne` does; they keep every
coherent cache coherent with no condition.

## Model

| member | source | states |
|---|---|---|
| `Text.NatToString` | src/api/teacher/teacher.service.ts:55 | `${n}` renders a page number or limit as a non-empty run of digits without a leading zero and without `:` |
| `Text.NatToStringRoundTrip` | src/api/teacher/teacher.service.ts:55 | the decimal text of n reads back as n |
| `Text.NatToStringInjective` | src/api/student/student.service.ts:74 | different numbers render differently |
| `PageKeys.PageKey` | src/api/teacher/teacher.service.ts:55 | the key `{resource}:page:{page}:limit:{limit}` starts with the resource's invalidation pattern `{resource}:page:` |
| `PageKeys.PageKeyTail` | src/api/student/student.service.ts:74 | after the pattern, a key holds the page number, `:limit:` and the limit |
| `PageKeys.PageKeyInjective` | src/api/teacher/teacher.service.ts:55 | equal keys of one resource mean equal (page, limit): one page's entry never answers another page |
| `PageKeys.ResourcesDisjoint` | src/api/student/student.service.ts:52-55 | teacher and student keys never collide, and neither pattern matches the other resource's keys |
| `Records.WithRole` | src/api/teacher/teacher.service.ts:66-67 | `where: { role }` keeps exactly the rows of that role and no more rows than the table has (the order, table order, comes from the definition and `WithRoleAppend`) |
| `Records.WithRoleAppend` | src/api/teacher/teacher.service.ts:37-39 | filtering on role distributes over appending rows |
| `Records.Window` | src/api/teacher/teacher.service.ts:65-73 | skip/take yields min(take, remaining) elements, the i-th being element skip + i |
| `Records.ConsecutiveWindows` | src/api/teacher/teacher.service.ts:65-73 | two adjacent skip/take windows concatenate to the window spanning both |
| `Records.Page` | src/api/teacher/teacher.service.ts:65-73 | `findMany({ where: { role }, skip, take })` holds exactly min(take, count - skip) rows (none once skip reaches the role's count), all of the role, the i-th being row skip + i of the role's listing |
| `Records.PagesTile` | src/api/student/student.service.ts:80-90 | reading pages 1..n of one limit yields the first n * limit rows in order, and every row once n * limit covers them |
| `Records.RowById` | src/api/teacher/teacher.service.ts:164-166 | `findUnique({ user_id })` returns a row with that id, and nothing exactly when no row has it |
| `Records.RowByIdAndRole` | src/api/teacher/teacher.service.ts:150-152 | `findUnique({ user_id, role })` returns only a row with that id and that role |
| `Records.RowByIdFinds` | src/api/student/student.service.ts:131-133 | with unique ids, the lookup finds every row by its id |
| `Records.RowByIdAndRoleFinds` | src/api/teacher/teacher.service.ts:150-152 | with unique ids, the lookup on id and role finds every row of that role, and nothing when the id's row has another role |
| `Records.RowByUsername` | src/api/teacher/teacher.service.ts:27-29 | `findUnique({ username })` returns a row with that username, and nothing exactly when no row has it |
| `Records.SetFullName` | src/api/teacher/teacher.service.ts:170-173 | the update changes `full_name` of the rows with the id and nothing else; an undefined `full_name` changes nothing |
| `Records.Renamed` | src/api/teacher/teacher.service.ts:170-173 | an update of one row changes at most its `full_name`, and only for the targeted id with a defined `full_name` |
| `Records.RemoveById` | src/api/teacher/teacher.service.ts:197 | after the delete, a row remains exactly when it was there and has another id |
| `Records.UniqueKeysCons` | src/api/student/student.service.ts:27-32 | unique ids and usernames of a table are a first row distinct from the rest plus unique keys in the rest |
| `Records.RemoveByIdKeepsUnique` | src/api/student/student.service.ts:177 | deleting keeps ids and usernames unique |
| `Records.RemoveByIdRemovesOne` | src/api/student/student.service.ts:170-177 | deleting an existing id of a table with unique ids removes exactly one row |
| `Records.RemoveAbsentId` | src/api/teacher/teacher.service.ts:197 | deleting an absent id leaves the rows as they are |
| `Records.AppendKeepsOtherListing` | src/api/teacher/teacher.service.ts:37-39 | inserting a row of one role leaves the other role's listing unchanged |
| `Records.RenameKeepsOtherListing` | src/api/teacher/teacher.service.ts:170-173 | renaming rows that do not have a role leaves that role's listing unchanged |
| `Records.RemoveKeepsOtherListing` | src/api/student/student.service.ts:177 | deleting rows that do not have a role leaves that role's listing unchanged |
| `Records.UserTable.FindUniqueById` | src/api/student/student.service.ts:131-133 | returns the row with the id, if any, and counts one query |
| `Records.UserTable.FindUniqueByIdAndRole` | src/api/teacher/teacher.service.ts:150-152 | returns the row with the id and role, if any, and counts one query |
| `Records.UserTable.FindUniqueByUsername` | src/api/student/student.service.ts:27-29 | returns the row with the username, if any, and counts one query |
| `Records.UserTable.FindMany` | src/api/student/student.service.ts:81-90 | returns the skip/take page of the role's rows and counts one query |
| `Records.UserTable.Count` | src/api/student/student.service.ts:92-94 | returns the number of rows of the role and counts one query |
| `Records.UserTable.Create` | src/api/teacher/teacher.service.ts:37-39 | appends the row; with a fresh id and username the table keeps unique keys |
| `Records.UserTable.UpdateFullName` | src/api/student/student.service.ts:152-155 | replaces the rows by their renamed version and returns the updated row |
| `Records.UserTable.Delete` | src/api/student/student.service.ts:177 | removes the row with the id (exactly one) and returns it |
| `RedisCache.MatchingKeys` | src/api/teacher/teacher.service.ts:42 | `keys('{prefix}*')` returns every stored key with the prefix and no other |
| `RedisCache.Purge` | src/api/teacher/teacher.service.ts:42-45 | after the purge a key remains exactly when it was stored and lacks the prefix, with its value |
| `RedisCache.PurgeIdempotent` | src/api/teacher/teacher.service.ts:175-178 | a second purge with no write in between changes nothing |
| `RedisCache.PurgeSparesOtherPrefix` | src/api/student/student.service.ts:158-161 | a key of another resource survives a purge with its value |
| `RedisCache.Redis.Get` | src/api/teacher/teacher.service.ts:56 | returns the stored value, or nothing for an absent key |
| `RedisCache.Redis.Set` | src/api/teacher/teacher.service.ts:74 | stores the value under the key and changes no other key |
| `RedisCache.Redis.Keys` | src/api/student/student.service.ts:52 | returns the keys the prefix pattern matches |
| `RedisCache.Redis.Del` | src/api/student/student.service.ts:53-54 | deletes the given (non-empty) keys, returning how many existed |
| `RedisCache.Invalidate` | src/api/teacher/teacher.service.ts:193-196 | listing and deleting the pattern's keys, skipping `del` when there are none, is a purge of the prefix |
| `Listings.Skip` | src/api/teacher/teacher.service.ts:65 | `(page - 1) * limit` rows precede the page, so page `page` ends at row `page * limit`; page 1 starts at row 0 |
| `Listings.TeacherPageData` | src/api/teacher/teacher.service.ts:65-74 | the cached teacher array holds exactly min(limit, count - skip) teachers (none past the count), the i-th being teacher skip + i of the teacher listing |
| `Listings.StudentEnvelope` | src/api/student/student.service.ts:96-115 | the cached student envelope is a 200 success with exactly min(limit, count - skip) students, the i-th being student skip + i of the student listing, and the count of all students |
| `Listings.ListingContents` | src/api/student/student.service.ts:80-103 | a student page holds min(limit, count - skip) students and none past the count, so `studentCount` agrees with every page |
| `Listings.Coherent` | src/api/teacher/teacher.service.ts:54-80 | the cache invariant (every cached page of either resource is the current one) holds for a key space without page keys, whatever the table |
| `Listings.EmptyCacheCoherent` | src/api/teacher/teacher.service.ts:54-80 | an empty key space is coherent with any table |
| `Listings.TeacherHitIsCurrent` | src/api/teacher/teacher.service.ts:56-63 | on a coherent cache a teacher hit replays the current page |
| `Listings.StudentHitIsCurrent` | src/api/student/student.service.ts:75-78 | on a coherent cache a student hit replays the current envelope |
| `Listings.TeacherMissKeepsCoherent` | src/api/teacher/teacher.service.ts:65-79 | storing a freshly queried teacher page keeps every cached page of both resources current |
| `Listings.StudentMissKeepsCoherent` | src/api/student/student.service.ts:80-115 | storing a freshly assembled student envelope keeps every cached page of both resources current |
| `Listings.TeacherPurgeEvictsAllTeacherPages` | src/api/teacher/teacher.service.ts:41-45 | after the teacher purge no teacher page of any (page, limit) is cached, and student pages are as they were |
| `Listings.StudentPurgeEvictsAllStudentPages` | src/api/student/student.service.ts:179-183 | after the student purge no student page of any (page, limit) is cached, and teacher pages are as they were |
| `Listings.TeacherWriteKeepsCoherent` | src/api/teacher/teacher.service.ts:37-45 | a teacher write that leaves the student listing alone, then the teacher purge, keeps the cache coherent |
| `Listings.StudentWriteKeepsCoherent` | src/api/student/student.service.ts:48-55 | a student write that leaves the teacher listing alone, then the student purge, keeps the cache coherent |
| `Listings.CrossRoleRenameLeavesStalePage` | src/api/teacher/teacher.service.ts:164-178 | renaming a student through TeacherService (the check ignores role) leaves a cached student page showing the old name |
| `Listings.CrossRoleRemoveLeavesStalePage` | src/api/teacher/teacher.service.ts:186-197 | deleting a student through TeacherService leaves a cached student page listing the deleted row and counting one student in a table with none |
| `Listings.CrossRoleRenameLeavesStaleTeacherPage` | src/api/student/student.service.ts:145-161 | renaming a teacher through StudentService leaves a cached teacher page showing the old name |
| `TeacherApi.TeacherService.constructor` | src/api/teacher/teacher.service.ts:20-24 | the service keeps the injected Redis client and table |
| `TeacherApi.TeacherService.Create` | src/api/teacher/teacher.service.ts:26-52 | a taken username gives Conflict with table and cache unchanged; otherwise one TEACHER row is appended, `teachers:page:*` is purged, 201 `created` with the row is returned, and coherence is kept |
| `TeacherApi.TeacherService.FindAll` | src/api/teacher/teacher.service.ts:54-80 | a hit returns `{200, success, cached}` with no query and no cache write; a miss sends one query and returns and caches the teacher page at skip (page-1)*limit; on a coherent cache the result is the current page and coherence is kept |
| `TeacherApi.NewTeacher` | src/api/teacher/teacher.service.ts:33-39 | the inserted row is a TEACHER with the DTO's name and username, the hashed password, the new id, and no address or phone |
| `TeacherApi.TeacherService.FindOne` | src/api/teacher/teacher.service.ts:149-161 | returns the row only when the id exists with role TEACHER, otherwise NotFound with the id in the message; with unique ids every existing teacher is found and a row of another role is not |
| `TeacherApi.TeacherService.Update` | src/api/teacher/teacher.service.ts:163-183 | an absent id (of any role) gives NotFound and changes nothing; otherwise only `full_name` changes and `teachers:page:*` is purged; coherence is kept when the target is not a student |
| `TeacherApi.TeacherService.UpdateRoleChecked` | src/api/teacher/teacher.service.ts:163-183 | the update with its existence check on id and role TEACHER: NotFound for a student's id, and every coherent cache stays coherent with no condition |
| `TeacherApi.TeacherService.Remove` | src/api/teacher/teacher.service.ts:185-202 | an absent id gives NotFound and changes nothing; otherwise the teacher pages are purged and exactly that row is deleted; coherence is kept when the target is not a student |
| `TeacherApi.TeacherService.RemoveRoleChecked` | src/api/teacher/teacher.service.ts:185-202 | the remove with its existence check on id and role TEACHER: NotFound for a student's id, otherwise exactly that row is deleted after the teacher purge, and every coherent cache stays coherent with no condition |
| `TeacherApi.ImageUrl` | src/api/teacher/teacher.service.ts:110 | the URL starts with `API_URL + "/"` and continues with the uploaded path |
| `TeacherApi.IndexOf` | src/api/teacher/teacher.service.ts:133 | finds the first occurrence of the pattern, or reports that there is none |
| `TeacherApi.ReplaceFirst` | src/api/teacher/teacher.service.ts:133 | `replace(pat, '')` leaves a string without the pattern as it is, cuts a leading pattern off, and otherwise changes the length by exactly the pattern's |
| `TeacherApi.ReplaceFirstCutsFirstOccurrence` | src/api/teacher/teacher.service.ts:133 | `replace(pat, '')` cuts out the first occurrence of the pattern and keeps everything before and after it |
| `TeacherApi.StripImageUrl` | src/api/teacher/teacher.service.ts:110 | cutting `API_URL + "/"` out of an uploaded image's URL gives back its stored path |
| `TeacherApi.TrackedPaths` | src/api/teacher/teacher.service.ts:132-134 | each tracked path is its URL with the first `API_URL + "/"` cut out |
| `TeacherApi.Untracked` | src/api/teacher/teacher.service.ts:137-141 | the files the loop deletes are exactly the listed files that no tracked path names |
| `TeacherApi.FileStore.constructor` | src/api/teacher/teacher.service.ts:135 | the upload folder starts with the given files |
| `TeacherApi.FileStore.DeleteFile` | src/api/teacher/teacher.service.ts:139 | removes that one file |
| `TeacherApi.CleanUpUntrackedImages` | src/api/teacher/teacher.service.ts:127-146 | deletes exactly the listed files no tracked path names; when the listing covers the folder, only tracked files remain |
| `StudentApi.StudentService.constructor` | src/api/student/student.service.ts:19-24 | the service keeps the injected Redis client and table |
| `StudentApi.StudentService.Create` | src/api/student/student.service.ts:26-55 | a taken username gives Conflict before any insert or purge; otherwise one STUDENT row with the seven copied fields is appended, `students:page:*` is purged, and coherence is kept |
| `StudentApi.StudentService.FindAll` | src/api/student/student.service.ts:73-116 | a hit returns the cached envelope verbatim with no query and no write; a miss sends two queries (`findMany` and `count`) and returns exactly the envelope it caches, with the page and the total student count; on a coherent cache the result is current |
| `StudentApi.NewStudent` | src/api/student/student.service.ts:39-50 | the inserted row is a STUDENT with the DTO's name, username, address and phone, the hashed password and the new id |
| `StudentApi.StudentService.FindOne` | src/api/student/student.service.ts:130-142 | returns any user with the id (no role filter), otherwise NotFound; with unique ids every existing user is found |
| `StudentApi.StudentService.Update` | src/api/student/student.service.ts:144-167 | an absent id gives NotFound and changes nothing; otherwise only `full_name` changes, then `students:page:*` is purged; coherence is kept when the target is not a teacher |
| `StudentApi.StudentService.Remove` | src/api/student/student.service.ts:169-189 | an absent id gives NotFound and changes nothing; otherwise exactly that row is deleted, then the student pages are purged; coherence is kept when the target is not a teacher |
| `PhoneNumber.TrimStart` | src/common/decorator/is-phone-number.ts:18 | what remains after the leading blanks does not start with a blank |
| `PhoneNumber.TrimEnd` | src/common/decorator/is-phone-number.ts:18 | what remains after the trailing blanks does not end with a blank |
| `PhoneNumber.TrimStartSlice` | src/common/decorator/is-phone-number.ts:18 | leading trimming cuts blanks only and leaves a suffix of the string |
| `PhoneNumber.TrimEndSlice` | src/common/decorator/is-phone-number.ts:18 | trailing trimming cuts blanks only and leaves a prefix of the string |
| `PhoneNumber.Trim` | src/common/decorator/is-phone-number.ts:18 | the text `Number` reads neither starts nor ends with a blank |
| `PhoneNumber.TrimSlice` | src/common/decorator/is-phone-number.ts:27 | the text `Number` reads is a slice of the string with only blanks before and after it |
| `PhoneNumber.NumberTruthy` | src/common/decorator/is-phone-number.ts:18-20 | a string whose `Number` is truthy contains a non-zero digit and only digits, a point, a sign and blanks |
| `PhoneNumber.NumberCharacters` | src/common/decorator/is-phone-number.ts:27 | every character of the string is a blank, the sign, or a character of the numeric body, whose characters all come from the string |
| `PhoneNumber.Validate` | src/common/decorator/is-phone-number.ts:17-31 | an accepted value has length 13, starts with `+998`, and both it and its suffix are truthy numbers |
| `PhoneNumber.TrimUnchanged` | src/common/decorator/is-phone-number.ts:18 | a string with no blank at either end is its own trimmed form, as `Number` trims |
| `PhoneNumber.DigitsTruthy` | src/common/decorator/is-phone-number.ts:27-29 | a digit string is a truthy number exactly when some digit is not 0 |
| `PhoneNumber.DigitsBeforeLiteral` | src/common/decorator/is-phone-number.ts:18-20 | digits put in front of a string keep it a decimal literal or keep it not one |
| `PhoneNumber.SuffixDecides` | src/common/decorator/is-phone-number.ts:18-30 | for a 9-character suffix starting with a digit or point and not ending in a blank, `+998`+suffix is accepted exactly when the suffix is a non-zero decimal literal |
| `PhoneNumber.NineDigitsAccepted` | src/common/decorator/is-phone-number.ts:18-30 | `+998` and nine digits is accepted exactly when the digits are not all 0 |
| `PhoneNumber.WrongLengthRejected` | src/common/decorator/is-phone-number.ts:21-23 | every value whose length is not 13 is rejected |
| `PhoneNumber.WrongPrefixRejected` | src/common/decorator/is-phone-number.ts:24-26 | every value not starting with `+998` is rejected |
| `PhoneNumber.AllZeroSuffixRejected` | src/common/decorator/is-phone-number.ts:27-29 | `+998000000000` is rejected |
| `PhoneNumber.TrailingLetterRejected` | src/common/decorator/is-phone-number.ts:18-20 | `+99812345678x` is rejected |
| `PhoneNumber.PointLiteral` | src/common/decorator/is-phone-number.ts:27 | digits, a point and digits make a decimal literal |
| `PhoneNumber.FractionAccepted` | src/common/decorator/is-phone-number.ts:27-29 | `+9981234.5678` passes all four checks |
| `PhoneNumber.TrimOneTrailingSpace` | src/common/decorator/is-phone-number.ts:27 | one trailing blank is trimmed before conversion |
| `PhoneNumber.TrailingSpaceAccepted` | src/common/decorator/is-phone-number.ts:18-30 | `+998`, eight non-zero digits and a blank is accepted |
| `PhoneNumber.IsStrictPhoneNumber` | src/common/decorator/is-phone-number.ts:33 | an accepted value is `+` followed by twelve decimal digits |
| `PhoneNumber.StrictIsValidateOnDigits` | src/common/decorator/is-phone-number.ts:17-31 | the strict check accepts exactly the values `validate` accepts whose nine-character suffix is all digits |
| `PhoneNumber.StrictRejectsFraction` | src/common/decorator/is-phone-number.ts:27-29 | the strict check rejects `+9981234.5678` |

## Findings

| source | as written | input that shows it | evidently intended | confidence | as-written member | corrected member |
|---|---|---|---|---|---|---|
| src/common/decorator/is-phone-number.ts:27-29 | the suffix check only asks that `Number(suffix)` be non-zero, so any numeric text of the right length passes | `+9981234.5678` (also `+99812345678 `) | `+998` followed by exactly nine decimal digits, the format the error message names | high, not executed | `PhoneNumber.FractionAccepted` | `PhoneNumber.IsStrictPhoneNumber` |
| src/api/teacher/teacher.service.ts:164-169 | `update` checks existence on `user_id` alone and purges only `teachers:page:*`, so a student renamed through it stays stale in cached student pages | a coherent cache holding a student page, then `update` on that student's id with a new `full_name` | the check is on `user_id` and role TEACHER, as in `findOne` and as the NotFound message says | high, not executed | `Listings.CrossRoleRenameLeavesStalePage` | `TeacherApi.TeacherService.UpdateRoleChecked` |
| src/api/teacher/teacher.service.ts:186-197 | `remove` checks existence on `user_id` alone and purges only `teachers:page:*` before the delete, so a student deleted through it stays listed, and counted, in cached student pages | a coherent cache holding a student page, then `remove` on that student's id | the check is on `user_id` and role TEACHER, as in `findOne` and as the NotFound message says | high, not executed | `Listings.CrossRoleRemoveLeavesStalePage` | `TeacherApi.TeacherService.RemoveRoleChecked` |

## Left out

- JSON: `JSON.stringify`/`JSON.parse` are taken as identity. A cached `Date` column comes back as a string in the source; the model does not show this.
- Password hashing: the bcrypt hash of `password` is a parameter of `Create`. `BcryptEncryption` is not part of this model.
- Row ids: the id the database generates is a parameter of `Create`, required to be unused. That is the database's guarantee, not a check of the service.
- `new Date(data_of_birth)`: the date is kept as the request's string.
- StudentService `create`: the `groupMembersService.create` and `paymentStudentService.createPayment` calls after the purge are not modelled. Neither is the error a failing call would raise after the row exists.
- Relations: the `include` of `images` and `group_members` is not part of the rows.
- Row order: `findMany` has no `orderBy`, so the database promises no order. The model assumes that rows keep insertion order and that `update` keeps a row's position.
- `getProfile` in both services: plain projections with nothing to state.
- `imageUpload`: file type check and upload are file I/O. Only the URL it builds (`ImageUrl`) is modelled, as the partner of the clean-up's stripping.
- `cleanUpUntrackedImagesTeacehr`: the teacher image query and `getAllFiles('teacher')` are parameters (`imageUrls`, `listing`). The upload folder is a set of paths.
- TeacherService `create` spreads the whole DTO into the row. Properties beyond the declared fields are not modelled.
- Redis: `KEYS` is reduced to a prefix match and its reply to a set. Unreachable Redis or database, and the exceptions that would follow, are not modelled.
- Concurrency: calls are sequential. The window between TeacherService's purge and its delete, or between StudentService's delete and its purge, is not visible, so both `Remove` methods end in the same state.
- TeacherApi.TeacherService.FindAll: requires `page >= 1`, and `limit` is a `nat`. A negative `limit` is not modelled; Prisma reads a negative `take` as taking rows from the end. A smaller page gives Prisma a negative `skip`, which it rejects with an error the model does not carry. Non-integer query values are not modelled either. The same holds for StudentApi.StudentService.FindAll.
- PhoneNumber.NumberTruthy: a simplification of JS `Number`. It trims ASCII white space only and has no exponent, hexadecimal, octal or binary literal, no `Infinity` and no underflow to 0. Values that are not strings are not modelled; the source rejects them at the `Number` check or the length check.
- JS numbers: `${page}` switches to exponent notation from 1e21 and `(page - 1) * limit` is computed in floating point; `NatToString` and `Skip` use exact integers, which agree for realistic pages only.
- Cross-role checks in StudentService: its `update` and `remove` (student.service.ts:145-150, 170-175) have the same `user_id`-only check. `CrossRoleRenameLeavesStaleTeacherPage` exhibits the rename case; the role-checked correction is modelled for TeacherService only.
- DTO classes: the class-validator and Swagger decorators are library behaviour.
