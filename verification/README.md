# Users service model

A Dafny model of the user-management core of a NestJS service backed by one
PostgreSQL table, `users`. The model covers:

- The entity: a three-valued status enum whose column default is `pending`,
  a unique primary key, a unique email, and creation and update timestamps.
- The create and update request bodies, with their field-validation rules.
- The repository that reads and writes the table.
- The service that turns rows into responses without the password, enforces
  the status lifecycle, and fails with NotFound or BadRequest. It lets a
  storage error on a duplicate email pass through unchanged.

How the model is built:

- The table is a `seq<User>` in storage order, plus the next value of the id
  sequence. Both are fields of the `UsersRepository` class. Its methods
  update them in place, and its invariant `Valid()` is the primary key and
  the unique email constraint.
- Queries are functions over the rows.
- The service is a class that holds its repository. Its reads are functions
  and its writes are methods.
- Everything outside the program is a parameter:
  - the clock is `now`;
  - PostgreSQL's `DATE_TRUNC('month', …)` is `monthOf`;
  - class-validator's `IsEmail` is `isEmail`.
- PostgreSQL's `LIKE` is the function `Repository.Like`. It handles the two
  wildcards and the default escape character.

Modules:

- `Wrappers`: `Option`, `Result` and `Outcome`.
- `Entities`: `user.entity.ts`.
- `FieldRules`, `CreateDto` and `UpdateDto`: the two request bodies and
  their validation decorators.
- `Repository`: `users.repository.ts`.
- `Service`: `users.service.ts`.

How source behaviour is carried over:

- A violated unique constraint becomes `StoreError.DuplicateEmail`. The
  service does not catch that error. `ServiceError.Conflict` is this model's
  name for it as it leaves the service.
- An exception the service throws becomes an `Err` result.
- `repository.create(partial)` followed by `save` is modelled as a `Draft`.
  The partial has one of two shapes:
  - `Insert`: a partial without an id, which inserts a row.
  - `Overwrite`: a partial with the id of an existing row, which updates
    that row in place. When no column changes, `save` issues no UPDATE, so
    the row, including its update time, stays as it was.

Three behaviours of the code worth noting:

- `update` builds its merge object from the response, which has no
  password. The stored password therefore changes only when the body
  supplies one.
- `findUsersWithDetails` returns only active users.
- `bulkCreate` hands the bodies to storage unchanged. A body without a
  status therefore gets the column default, `pending`.

## Model

| member | source | states |
|---|---|---|
| Entities.StatusName | src/modules/users/entities/user.entity.ts:4-8 | each status's stored value is its own string: `Active` is `active`, `Inactive` is `inactive` and `Pending` is `pending`, and no other string is a value |
| Entities.ParseStatus | src/modules/users/entities/user.entity.ts:4-8 | a string reads as a status exactly when it is `active`, `inactive` or `pending`, and the status read has that string as its value |
| Entities.ParseStatusName | src/modules/users/entities/user.entity.ts:4-8 | each enum member reads back as itself from its string value, and no two members share a value |
| Entities.UniqueIdsCons | src/modules/users/entities/user.entity.ts:13-14 | a list with a row in front has unique ids iff the rest does and no row in it has that row's id |
| Entities.UniqueEmailsCons | src/modules/users/entities/user.entity.ts:17 | a list with a row in front has unique emails iff the rest does and no row in it has that row's email |
| Entities.UniqueIdsAppend | src/modules/users/entities/user.entity.ts:13-14 | appending rows keeps the ids unique when both parts have unique ids and none is shared |
| Entities.UniqueEmailsAppend | src/modules/users/entities/user.entity.ts:17 | appending rows keeps the emails unique when both parts have unique emails and none is shared |
| FieldRules.ReadStatus | src/modules/users/dto/create-user.dto.ts:36-40 | an optional status field read as a status is absent iff the field is absent, and is otherwise the member whose value the field holds |
| FieldRules.Check | src/modules/users/dto/create-user.dto.ts:10-40 | a decorator reports its one violation exactly when its constraint fails |
| FieldRules.CheckOptional | src/modules/users/dto/update-user.dto.ts:11-46 | an optional field's violation is reported exactly when the field is present and fails its constraint |
| CreateDto.Violations | src/modules/users/dto/create-user.dto.ts:10-40 | a create body has no violations iff it is valid; an invalid email, a name under 2 characters, a password under 8 and a status outside the enum are each reported exactly when they occur |
| CreateDto.ValidIsTyped | src/modules/users/dto/create-user.dto.ts:36-40 | a create body that passed validation has a well-typed status, which is what the service's `create` requires |
| UpdateDto.Violations | src/modules/users/dto/update-user.dto.ts:11-46 | an update body has no violations iff it is valid; each constraint is reported exactly when its field is present and fails it |
| UpdateDto.EmptyIsValid | src/modules/users/dto/update-user.dto.ts:11-46 | every field is optional, so the empty body has no violations |
| Repository.FindById | src/modules/users/repositories/users.repository.ts:18-20 | the result is a stored row with that id, and there is no result iff no row has the id |
| Repository.FindByIdUnique | src/modules/users/repositories/users.repository.ts:18-20 | with unique ids, looking up a stored row's id finds that row |
| Repository.Filter | src/modules/users/repositories/users.repository.ts:43-49 | a `where` filter keeps exactly the accepted rows, each as often as it is stored |
| Repository.FilterKeepsUnique | src/modules/users/repositories/users.repository.ts:63-68 | a filtered table keeps unique ids and unique emails |
| Repository.FilterAll | src/modules/users/repositories/users.repository.ts:27-29 | a filter that accepts every row returns the table unchanged |
| Repository.Without | src/modules/users/repositories/users.repository.ts:27-29 | deleting by id keeps exactly the rows with other ids |
| Repository.WithoutEffect | src/modules/users/repositories/users.repository.ts:27-29 | after deleting an id, looking that id up finds nothing and every other id finds what it found before |
| Repository.Replace | src/modules/users/repositories/users.repository.ts:22-25 | an update by id changes the rows with that id to the new row, leaves every other row in its place, and keeps the length |
| Repository.ReplaceEffect | src/modules/users/repositories/users.repository.ts:22-25 | after an update, its id finds the new row and every other id finds what it found before |
| Repository.ReplaceWithStored | src/modules/users/repositories/users.repository.ts:22-25 | with unique ids, saving a stored row unchanged leaves the table as it was |
| Repository.ReplaceKeepsIds | src/modules/users/entities/user.entity.ts:13-14 | an update by id keeps the ids unique |
| Repository.ReplaceKeepsEmails | src/modules/users/entities/user.entity.ts:17 | an update keeps the emails unique when no other row holds its new email |
| Repository.ReplaceKeepsUnique | src/modules/users/entities/user.entity.ts:13-17 | an update keeps both constraints when no other row holds its new email, and every resulting row is the new row or an old one |
| Repository.OwnEmailNotHeldByOther | src/modules/users/entities/user.entity.ts:17 | with unique emails, no other row holds a stored row's own email |
| Repository.InsertByCreatedDesc | src/modules/users/repositories/users.repository.ts:37-39 | inserting into a list sorted by creation time, newest first, keeps it sorted and adds exactly that row |
| Repository.SortByCreatedDesc | src/modules/users/repositories/users.repository.ts:37-39 | `ORDER BY created_at DESC` returns a sorted permutation of its input |
| Repository.FindUsersByDateRange | src/modules/users/repositories/users.repository.ts:32-41 | returns exactly the rows created within the inclusive range, each as often as stored, newest first |
| Repository.DateRangeReversedIsEmpty | src/modules/users/repositories/users.repository.ts:35 | a range whose start is after its end returns no rows |
| Repository.LikePattern | src/modules/users/repositories/users.repository.ts:46 | the pattern handed to LIKE is the user's pattern, unchanged, with one `%` added at each end |
| Repository.LikePercentAll | src/modules/users/repositories/users.repository.ts:46 | the wildcard `%` on its own matches every string |
| Repository.LikeLeadingPercent | src/modules/users/repositories/users.repository.ts:46 | a pattern starting with `%` matches iff the rest of the pattern matches some suffix of the string |
| Repository.LikePlainPrefix | src/modules/users/repositories/users.repository.ts:46 | a pattern without `%`, `_` or `\` followed by `%` matches exactly the strings it is a prefix of |
| Repository.LikePlainIffOccurs | src/modules/users/repositories/users.repository.ts:46 | for a pattern without `%`, `_` or `\`, `LIKE '%p%'` holds iff the pattern occurs at some position of the email |
| Repository.EmptyPatternMatchesAll | src/modules/users/repositories/users.repository.ts:46 | the empty pattern matches every email |
| Repository.UnderscoreMatchesNonEmpty | src/modules/users/repositories/users.repository.ts:46 | the pattern `_` is a wildcard and matches exactly the non-empty emails |
| Repository.FindUsersByEmailPattern | src/modules/users/repositories/users.repository.ts:43-49 | returns exactly the rows whose email matches `LIKE '%p%'`, wildcards included, each as often as stored |
| Repository.PlainSearchIsSubstring | src/modules/users/repositories/users.repository.ts:43-49 | for a pattern without `%`, `_` or `\`, the search returns exactly the rows whose email contains the pattern, each as often as stored |
| Repository.FindUsersWithDetails | src/modules/users/repositories/users.repository.ts:63-69 | returns exactly the active rows, each as often as stored, newest first |
| Repository.AddToMonth | src/modules/users/repositories/users.repository.ts:55-58 | counting one more user keeps the month rows strictly descending, and the first month is the later of the new month and the old first |
| Repository.AddToMonthCounts | src/modules/users/repositories/users.repository.ts:56-57 | counting a user in month m raises m's count by one, leaves every other month's count alone, and raises the total by one |
| Repository.CountForAbsent | src/modules/users/repositories/users.repository.ts:56-57 | a month without a row has count 0 |
| Repository.CountForRow | src/modules/users/repositories/users.repository.ts:57-58 | in strictly descending rows, the count for a row's month is that row's count |
| Repository.GetUsersCountByMonth | src/modules/users/repositories/users.repository.ts:52-60 | month rows are strictly descending, each month's count is the number of users created in it, and the counts add up to the number of users |
| Repository.UsersInMonthPositive | src/modules/users/repositories/users.repository.ts:55-57 | a month has a positive count iff some user was created in it |
| Repository.MonthRowsExact | src/modules/users/repositories/users.repository.ts:52-60 | there is a row for month m iff some user was created in m, and each row's count is the number of users created in its month |
| Repository.Inserted | src/modules/users/entities/user.entity.ts:33-46 | a new row has the given id and fields, status `pending` when none is given (the column default), and creation and update times both set to now |
| Repository.Overwritten | src/modules/users/repositories/users.repository.ts:22-25 | saving over a stored row keeps its id and creation time, takes the given fields, and keeps the stored password unless one is given. The row is unchanged, update time included, iff no column changes; otherwise the update time is now |
| Repository.InsertedBatch | src/modules/users/repositories/users.repository.ts:72-75 | a batch has exactly one row per entry, and row i is entry i saved under id `firstId + i` |
| Repository.EmailTakenAppend | src/modules/users/entities/user.entity.ts:17 | an email is taken in two lists together iff it is taken in one of them |
| Repository.BatchEmailTaken | src/modules/users/repositories/users.repository.ts:72-75 | within a batch, an entry's email is taken by the stored rows plus the earlier entries iff that entry clashes |
| Repository.UsersRepository.constructor | src/modules/users/repositories/users.repository.ts:8-11 | a new repository starts with an empty table whose first id is 1 |
| Repository.UsersRepository.Create | src/modules/users/repositories/users.repository.ts:22-25 | an insert fails iff the email is taken; otherwise it appends the row with the next id, the given or default status, and both timestamps set to now. An overwrite fails iff another row holds the email; otherwise it saves the row in place, and the update time changes only when some column does. A failure changes nothing. The constraints are kept |
| Repository.UsersRepository.Remove | src/modules/users/repositories/users.repository.ts:27-29 | deletes the rows with that id and nothing else; an unknown id changes nothing |
| Repository.UsersRepository.UpdateUserStatus | src/modules/users/repositories/users.repository.ts:78-81 | sets the status and update time of the row with that id and returns the re-read row, which is absent iff the id is unknown |
| Repository.UsersRepository.BulkCreate | src/modules/users/repositories/users.repository.ts:72-75 | saves the whole batch or nothing: it fails iff some entry's email is taken or repeats an earlier entry's, and names the first such entry; otherwise it appends one row per entry with consecutive ids |
| Service.ToResponse | src/modules/users/services/users.service.ts:14-23 | the response keeps every field of the row except the password, so the response and the row's password rebuild the row |
| Service.ResponseRoundTrip | src/modules/users/services/users.service.ts:14-23 | rebuilding a row from a response with any password and transforming it again gives back the same response |
| Service.ResponseForgetsOnlyPassword | src/modules/users/services/users.service.ts:14-23 | two rows give equal responses iff they differ at most in the password |
| Service.ToResponses | src/modules/users/services/users.service.ts:27 | mapping rows to responses keeps their number and order |
| Service.SameCountAsFilter | src/modules/users/services/users.service.ts:84-87 | a query result holding each accepted row as often as it is stored has the same length as the filter |
| Service.ResponsesListExactly | src/modules/users/services/users.service.ts:105-113 | the responses of such a query list exactly the accepted rows |
| Service.ValidTargets | src/modules/users/services/users.service.ts:90-94 | each status may move to exactly the statuses other than itself and pending, each listed once |
| Service.ValidateStatusTransition | src/modules/users/services/users.service.ts:89-102 | accepts exactly pending to active, pending to inactive, active to inactive and inactive to active; a refusal names the current status, the requested one and the valid targets |
| Service.SameStatusIsRefused | src/modules/users/services/users.service.ts:90-94 | no status may move to itself |
| Service.PendingIsNeverReentered | src/modules/users/services/users.service.ts:90-94 | no status may move to pending |
| Service.AcceptedPathAlternates | src/modules/users/services/users.service.ts:89-102 | along accepted transitions, pending appears only at the start, and after that the status alternates between active and inactive |
| Service.BodiesAsNewUsers | src/modules/users/services/users.service.ts:124-127 | bodies handed to the repository clash exactly when their emails do, and each stored row carries its body's fields |
| Service.UsersService.constructor | src/modules/users/services/users.service.ts:10-12 | the service uses the repository it is given |
| Service.UsersService.FindAll | src/modules/users/services/users.service.ts:25-28 | one response per row, in storage order |
| Service.UsersService.FindOne | src/modules/users/services/users.service.ts:30-36 | NotFound iff no row has the id; otherwise the response of the row with that id |
| Service.UsersService.Create | src/modules/users/services/users.service.ts:38-44 | fails with the storage error (Conflict) iff the email is taken, and then nothing is stored. Otherwise it appends the body with status pending if none is given, under the next id, which advances by one, and `FindOne` on the new id returns the same response |
| Service.UsersService.Update | src/modules/users/services/users.service.ts:46-60 | NotFound for an unknown id. A supplied status that differs from the stored one and is not an accepted move is a refused transition; omitting the status or repeating the stored one is never refused. fails with the storage error (Conflict) iff another row holds the resulting email. Otherwise each supplied field takes the new value and every other field keeps its old one. The update time becomes now iff some column changed; a body that changes nothing, such as the empty body, leaves the table as it was and returns the stored row |
| Service.UsersService.Remove | src/modules/users/services/users.service.ts:62-68 | NotFound iff the id is unknown; afterwards that id is not found and every other id finds what it found before |
| Service.UsersService.UpdateStatus | src/modules/users/services/users.service.ts:71-82 | NotFound for an unknown id. The move is always checked, so repeating the current status is refused. An accepted move changes only that row's status and update time. A success never yields pending |
| Service.UsersService.FindActiveUsers | src/modules/users/services/users.service.ts:84-87 | responses of exactly the active users, newest first |
| Service.UsersService.FindUsersByDateRange | src/modules/users/services/users.service.ts:105-108 | responses of exactly the users created within the inclusive range, newest first; an inverted range gives none |
| Service.UsersService.FindUsersByEmailPattern | src/modules/users/services/users.service.ts:110-113 | responses of exactly the users whose email matches `LIKE '%pattern%'`, wildcards included; for a pattern without `%`, `_` or `\`, exactly the users whose email contains it |
| Service.UsersService.GetUsersCountByMonth | src/modules/users/services/users.service.ts:115-117 | month rows strictly descending, each count the number of users created in that month, adding up to the number of users |
| Service.UsersService.BulkCreate | src/modules/users/services/users.service.ts:124-127 | fails with the storage error (Conflict), with nothing stored, iff some body's email is taken or repeats an earlier body's. Otherwise one row per body, in order, with consecutive ids, the id sequence advanced by the number of bodies, the body's fields and status pending when none is given |

## Left out

- `users.controller.ts`, `database.config.ts` and `app.module.ts` are not
  part of this model. They hold routing, configuration and wiring.
- The validation pipe is only described by `CreateDto.Violations` and
  `UpdateDto.Violations`. The service methods assume the body passed it:
  their `requires` is that a present status is a well-typed `UserStatus`,
  which is its declared TypeScript type.
- The `IsEmail` grammar is the parameter `isEmail`.
- `MinLength` is modelled as a length of at least 2 or 8 characters. The
  model does not capture JavaScript's UTF-16 code-unit counting.
- `IsString` on values that are not strings is not modelled: every field is
  typed as a string.
- Timestamps are integers, and the time of a write is the parameter `now`.
  The database clock and time zones are not modelled.
- The month a timestamp truncates to is the parameter `monthOf`. The
  driver returns `month`, a `timestamp`, as a `Date` and `count`, a
  `bigint`, as a string, whatever the declared return type says; here both
  are integers.
- `findUserWithCache` (repository lines 84-92) is left out.
  `database.config.ts` sets no `cache` option, and TypeORM ignores a
  per-query `cache` without one. The method therefore behaves as `findById`.
- `findUsersWithDetails` in the service (lines 119-122) has the same body as
  `findActiveUsers` and is modelled once, as
  `Service.UsersService.FindActiveUsers`.
- Repository.Like: PostgreSQL rejects a pattern that ends in a lone escape
  character with an error; here such a pattern matches nothing. The pattern
  `findUsersByEmailPattern` builds always ends in `%`, so the case does not
  arise there.
- Repository.UsersRepository.Create: TypeORM's `save` with an id that does
  not exist is not modelled. `Overwrite` requires the id to exist, and the
  service only overwrites after finding the row.
- Repository.UsersRepository.BulkCreate: a batch whose entries carry ids is
  not modelled, because the service passes bodies without ids.
- Sequence values used up by a failed insert are not modelled. A failed
  write leaves `nextId` unchanged, whereas PostgreSQL skips those values.
  Ids stay unique either way.
- The order of rows from a query without `ORDER BY` is not promised by the
  database. The model returns storage order for both `findAll` and
  `findUsersByEmailPattern`. `Service.UsersService.FindAll` states that
  order. The contracts of the two `FindUsersByEmailPattern` members state
  only which rows come back.
- Service.UsersService.Create, Service.UsersService.Update,
  Service.UsersService.BulkCreate: the source catches nothing. A duplicate
  email leaves the service as TypeORM's `QueryFailedError`, which NestJS
  answers with status 500. `ServiceError.Conflict` is only this model's
  label for that error. The HTTP status and the error's text are not
  modelled.
- UpdateDto.Violations, Service.UsersService.Update: a JSON `null` in an
  optional update field is not modelled.
  - In the source, `@IsOptional` skips `null` as it does a missing field,
    and `update` skips the transition check for a `null` status.
  - The spread then writes NULL into a NOT NULL column, so storage rejects
    the save.
  - The model's `Option<string>` has no null. A field is either absent,
    which keeps the old value, or a string.
- Concurrent requests are not modelled: each operation is atomic. Storage
  failures other than the unique constraint, such as a lost connection, are
  not modelled either.
