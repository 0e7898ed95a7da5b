# Gym membership backend: admission, capacity and the use cases around them

This project models the core of a gym-membership backend and proves properties of that model. The backend stores users, gyms and memberships and admits users to gyms up to each gym's capacity. It also ranks gyms by free places, applies partial updates to users and gyms, and turns domain errors into HTTP responses.

The model is one class, `UseCases.Backend`, holding the three database tables:
- users and gyms are maps from id to stored row;
- memberships are a sequence of rows in insertion order.

Each use case is a method of that class or, for the read-only ones, a function. A use case either fails with a `DomainErrors.DomainError` and changes nothing, or performs its write.

The admission use case runs its checks in the source's order, and the first failing check decides the error. The model proves three things about it:
- a successful admission never takes a gym above its capacity;
- every gym within its capacity is an invariant of admission, removal, deletion and updates that leave the capacity alone;
- the uniqueness of the (user, gym) pair, and every gym having a stored owner, are invariants of the whole database.

Lowering a gym's capacity below its member count is allowed, as it is in the source. So the capacity invariant is claimed only for updates that keep the capacity.

The availability listing is proved to be a ranking of its input. It keeps exactly the gyms with room, each once. It orders them by non-increasing free places, and unlimited gyms come last.

The entities keep the source's form:
- `Gym` and `User` are classes whose `Update` methods assign fields in place. The rows the tables hold are the datatypes `GymData` and `UserData`.
- `Membership` is a plain value.

The repositories' queries and writes are functions over the tables.

Things the source does not fix are parameters:
- the clock is `now: nat`;
- the ids the database assigns are `newId` arguments, required to be fresh;
- the conversion of a date string to an instant is `toInstant`;
- the order in which the database enumerates gyms is `order`.

The `## Model` table cites paths relative to the repository's root.

## Model

| member | source | states |
|---|---|---|
| GymEntity.GymData.HasCapacity | src/domain/entities/Gym.ts:60-65 | one more member fits exactly when the count plus one is within the capacity; an absent capacity always admits |
| GymEntity.GymData.GetAvailableSpots | src/domain/entities/Gym.ts:67-72 | unlimited exactly when there is no capacity; otherwise never above the capacity, zero exactly when the count reaches the capacity, and count plus spots equals the capacity when spots remain; agrees with HasCapacity (room iff unlimited or spots > 0) |
| GymEntity.NormalizedLocation | src/domain/entities/Gym.ts:31 | `location \|\| null`: absent exactly when the location is absent or empty, otherwise unchanged |
| GymEntity.NormalizedCapacity | src/domain/entities/Gym.ts:32 | `capacity \|\| null`: absent exactly when the capacity is absent or zero, otherwise unchanged and positive |
| GymEntity.Updated | src/domain/entities/Gym.ts:39-58 | each field left undefined keeps its value, a given name or type replaces it, location and capacity are kept, cleared or set; id, owner and creation instant never change; the update instant is refreshed |
| GymEntity.UpdateIdempotent | src/domain/entities/Gym.ts:39-58 | applying the same gym update twice equals applying it once |
| GymEntity.EmptyUpdateKeepsGym | src/domain/entities/Gym.ts:39-58 | an update that provides nothing changes only the update instant |
| GymEntity.ClearedCapacityAdmitsAll | src/domain/entities/Gym.ts:54-72 | after clearing the capacity the gym admits at every count and has unlimited spots |
| GymEntity.Gym.Create | src/domain/entities/Gym.ts:19-37 | `Gym.create`: empty id, the given name, type and owner, normalised location and capacity, created and updated at the same instant |
| GymEntity.Gym.FromData | src/infrastructure/repositories/GymRepository.ts:83-103 | the domain object built from a stored row carries exactly that row |
| GymEntity.Gym.Update | src/domain/entities/Gym.ts:39-58 | the object's new fields are `Updated` of its old fields |
| UserEntity.Updated | src/domain/entities/User.ts:36-51 | only the provided name, date of birth and fitness goal change; id, email and creation instant never change; the update instant is refreshed |
| UserEntity.UpdateIdempotent | src/domain/entities/User.ts:41-49 | applying the same user update twice equals applying it once |
| UserEntity.User.Create | src/domain/entities/User.ts:18-34 | `User.create`: empty id, the given profile, created and updated at the same instant |
| UserEntity.User.FromData | src/infrastructure/repositories/UserRepository.ts:47-65 | the domain object built from a stored row carries exactly that row |
| UserEntity.User.Update | src/domain/entities/User.ts:36-51 | the object's new fields are `Updated` of its old fields |
| MembershipEntity.Create | src/domain/entities/Membership.ts:11-14 | empty id, user and gym exactly as given, joined, created and updated at the same instant |
| DomainErrors.Name | src/domain/errors/DomainError.ts:1-7 | an error's name is its class name and ends in `Error` |
| DomainErrors.NameIdentifiesKind | src/domain/errors/DomainError.ts:1-7 | two errors have the same name exactly when they are of the same kind |
| DomainErrors.NatToString | src/domain/errors/DomainError.ts:23 | the capacity's rendering in a template literal: non-empty decimal digits without a leading zero |
| DomainErrors.NatToStringRoundTrip | src/domain/errors/DomainError.ts:23 | reading the rendered digits back gives the number |
| DomainErrors.Message | src/domain/errors/DomainError.ts:9-31 | the message of each error class; it opens with the entity's name (missing entity, duplicate), with "Gym '" (full gym), with "User " (repeated membership), or with the field (missing required field), and is longer than that opening |
| DomainErrors.NotFoundMessageEmbedsPayload | src/domain/errors/DomainError.ts:9-13 | the message of a missing entity starts with the entity's name, ends with " not found" and holds the id in between |
| DomainErrors.DuplicateMessageEmbedsPayload | src/domain/errors/DomainError.ts:15-19 | the message of a duplicate starts with the entity's name and holds the offending value just before "' already exists" |
| DomainErrors.CapacityMessageEmbedsPayload | src/domain/errors/DomainError.ts:21-25 | the message of a full gym holds the gym's name after "Gym '" and, before " members", decimal digits that read back as the capacity |
| DomainErrors.MembershipMessageEmbedsPayload | src/domain/errors/DomainError.ts:27-31 | the message of a repeated membership holds the user after "User " and ends with the gym |
| ErrorHandler.HandleError | src/interface/http/middleware/errorHandler.ts:10-57 | 404 exactly for a missing entity, 409 exactly for a duplicate entity or membership, 400 exactly for a full gym or a missing required field, 500 exactly for a non-domain error; domain bodies echo name and message; a non-domain body reads "Internal Server Error" and shows the message only in development |
| ErrorHandler.StatusClassifiesOrigin | src/interface/http/middleware/errorHandler.ts:16-56 | the status is 4xx exactly for domain errors and 5xx exactly for the others |
| ErrorHandler.ProductionHidesDetail | src/interface/http/middleware/errorHandler.ts:51-56 | outside development two non-domain errors produce the same response whatever their messages |
| Sequences.Filter | src/infrastructure/repositories/GymRepository.ts:75 | the kept elements are exactly the input's elements that satisfy the predicate |
| Sequences.FilterMultiset | src/infrastructure/repositories/GymRepository.ts:75 | filtering keeps each satisfying element as often as it occurs and drops the rest |
| Sequences.DistinctMultiset | src/infrastructure/repositories/GymRepository.ts:64-72 | a sequence without repetitions holds each element at most once |
| Sequences.MultisetDistinct | src/application/use-cases/ListUserGymsUseCase.ts:18-19 | a sequence holding each element at most once has no repetitions |
| Sequences.Insert | src/infrastructure/repositories/GymRepository.ts:76-80 | inserting adds exactly that element, once, to the sequence |
| Sequences.InsertSorted | src/infrastructure/repositories/GymRepository.ts:76-80 | inserting into a sequence sorted by non-increasing key keeps it sorted |
| Sequences.SortDesc | src/infrastructure/repositories/GymRepository.ts:76-80 | the result is sorted by non-increasing key and is a permutation of the input |
| MembershipRepository.FindByUserAndGym | src/infrastructure/repositories/MembershipRepository.ts:8-18 | a found row is in the table with that user and gym; nothing is found exactly when no row has that pair |
| MembershipRepository.FoundIsOnlyRowOfPair | src/infrastructure/repositories/MembershipRepository.ts:8-18 | under the unique pair key, the found row is the only row of its pair |
| MembershipRepository.CountByGymId | src/infrastructure/repositories/MembershipRepository.ts:65-67 | at most the table's size, and zero exactly when no row belongs to the gym |
| MembershipRepository.CountAppend | src/infrastructure/repositories/MembershipRepository.ts:65-67 | a new row raises its own gym's count by one and no other count |
| MembershipRepository.CountConcat | src/infrastructure/repositories/MembershipRepository.ts:65-67 | counting distributes over concatenation |
| MembershipRepository.CountFilterLe | src/infrastructure/repositories/MembershipRepository.ts:61-67 | dropping rows never raises a gym's count |
| MembershipRepository.FindByGymId | src/infrastructure/repositories/MembershipRepository.ts:32-42 | exactly the gym's rows, each as often as stored, latest join date first |
| MembershipRepository.FindByUserId | src/infrastructure/repositories/MembershipRepository.ts:20-30 | exactly the user's rows, each as often as stored, latest join date first |
| MembershipRepository.FindByGymIdLength | src/infrastructure/repositories/MembershipRepository.ts:32-67 | a gym's listing has as many rows as its count |
| MembershipRepository.IndexOfId | src/infrastructure/repositories/MembershipRepository.ts:52-53 | the first position holding the id that an update addresses |
| MembershipRepository.Save | src/infrastructure/repositories/MembershipRepository.ts:44-59 | an unsaved row is appended under the database's new id and creation instant; a saved one rewrites user, gym and join date of the row with its id and leaves every other row |
| MembershipRepository.InsertKeepsWellFormed | src/infrastructure/repositories/MembershipRepository.ts:44-59 | inserting a fresh id with an unused pair keeps ids and pairs unique |
| MembershipRepository.FindAfterInsert | src/infrastructure/repositories/MembershipRepository.ts:8-59 | after inserting a row for an unused pair, the pair's lookup finds that row |
| MembershipRepository.Delete | src/infrastructure/repositories/MembershipRepository.ts:61-63 | for a stored id, exactly the rows with another id remain, each as often as before |
| MembershipRepository.SubTableWellFormed | src/infrastructure/repositories/MembershipRepository.ts:61-63 | removing rows keeps ids and pairs unique |
| MembershipRepository.DeleteByGymId | src/application/use-cases/DeleteGymUseCase.ts:12 | the memberships of a deleted gym go with it, all others remain |
| MembershipRepository.DeleteByUserId | src/application/use-cases/DeleteUserUseCase.ts:12 | the memberships of a deleted user go with them, all others remain |
| MembershipRepository.DeleteByGymIds | src/application/use-cases/DeleteUserUseCase.ts:12 | removes exactly the rows of the given gyms, the cascade that deleting their owner causes |
| GymRepository.FindByUserId | src/infrastructure/repositories/GymRepository.ts:12-15 | exactly the stored gyms whose owner is the given user |
| GymRepository.Entries | src/infrastructure/repositories/GymRepository.ts:64-72 | one entry per enumerated gym, with its membership count and free places |
| GymRepository.EntryFor | src/infrastructure/repositories/GymRepository.ts:66-71 | the entry holds the gym and its member count; its places are unlimited exactly when the gym has no capacity, and it has room exactly when the gym admits one more member |
| GymRepository.HasRoom | src/infrastructure/repositories/GymRepository.ts:75 | an entry is kept exactly when its free places are not zero, which is exactly when its sort key is not zero |
| GymRepository.RankKey | src/infrastructure/repositories/GymRepository.ts:76-80 | negative (-1) exactly for unlimited entries, otherwise the free places |
| GymRepository.EntriesFacts | src/infrastructure/repositories/GymRepository.ts:64-72 | each entry is its gym's true entry, every gym has one, and none occurs twice |
| GymRepository.RankedOrder | src/infrastructure/repositories/GymRepository.ts:76-80 | under the sort key, an entry is preceded only by finite entries with at least as many free places |
| GymRepository.Rank | src/infrastructure/repositories/GymRepository.ts:74-80 | keeps exactly the entries with room, each as often as given; finite entries by non-increasing free places, unlimited ones after all of them |
| GymRepository.FindWithAvailableSpots | src/infrastructure/repositories/GymRepository.ts:61-81 | every entry is a stored gym with its true count and spots and with room; a gym is listed exactly when it has room; no entry twice; ranked as by Rank |
| GymRepository.RankedEntriesHonest | src/infrastructure/repositories/GymRepository.ts:64-80 | every ranked entry is the true entry of a stored gym, and that gym has room |
| GymRepository.RankedEntriesComplete | src/infrastructure/repositories/GymRepository.ts:64-80 | a stored gym's entry is ranked exactly when the gym has room |
| GymRepository.InsertedRow | src/infrastructure/repositories/GymRepository.ts:36-44 | an unsaved gym is stored under the new id with its fields, its owner and the database's creation instant |
| GymRepository.UpdatedRowAsWritten | src/infrastructure/repositories/GymRepository.ts:22-35 | as written, an update stores name, type, location and capacity and keeps the stored owner |
| GymRepository.OwnerChangeDiscardedAsWritten | src/infrastructure/repositories/GymRepository.ts:23-35 | as written, a gym whose owner was changed is stored with the old owner |
| GymRepository.UpdatedRow | src/application/use-cases/UpdateGymUseCase.ts:37-41 | an update stores name, type, location, capacity and the owner, keeping id and creation instant |
| GymRepository.UpdatedRowStoresObject | src/application/use-cases/UpdateGymUseCase.ts:37-41 | saving a loaded gym stores exactly the object's fields apart from the update instant |
| UseCases.AdmitKeepsConsistent | src/application/use-cases/AddUserToGymUseCase.ts:21-48 | admitting an existing user to an existing gym under a fresh id and an unused pair keeps the database consistent |
| UseCases.AdmitKeepsWithinCapacities | src/application/use-cases/AddUserToGymUseCase.ts:42-48 | admitting to a gym that has a free place keeps every gym within its capacity |
| UseCases.DropKeepsConsistent | src/application/use-cases/RemoveUserFromGymUseCase.ts:12 | dropping memberships, together with users or gyms nothing refers to any more, keeps the database consistent |
| UseCases.FilterKeepsWithinCapacities | src/application/use-cases/RemoveUserFromGymUseCase.ts:12 | dropping memberships keeps every gym within its capacity |
| UseCases.RemoveKeepsConsistent | src/application/use-cases/RemoveUserFromGymUseCase.ts:8-12 | deleting the found row of a pair by its id removes exactly that pair's row, after which the pair has no membership; the database stays consistent and every gym within its capacity |
| UseCases.DeleteGymKeepsConsistent | src/application/use-cases/DeleteGymUseCase.ts:12 | deleting a gym with its memberships keeps the database consistent |
| UseCases.DeleteGymKeepsWithinCapacities | src/application/use-cases/DeleteGymUseCase.ts:12 | deleting a gym with its memberships keeps every remaining gym within its capacity |
| UseCases.OwnedBy | src/application/use-cases/DeleteUserUseCase.ts:12 | exactly the ids of the stored gyms the user owns |
| UseCases.DeleteUserRowsRemain | src/application/use-cases/DeleteUserUseCase.ts:12 | the memberships left after deleting a user and their gyms are rows of the old table and refer to remaining users and gyms |
| UseCases.DeleteUserOwnersRemain | src/application/use-cases/DeleteUserUseCase.ts:12 | the gyms left after deleting a user and their gyms all have a remaining owner |
| UseCases.DeleteUserKeepsConsistent | src/application/use-cases/DeleteUserUseCase.ts:12 | deleting a user with the gyms they own and the memberships of both keeps the database consistent |
| UseCases.DeleteUserKeepsWithinCapacities | src/application/use-cases/DeleteUserUseCase.ts:12 | deleting a user with their gyms and memberships keeps every remaining gym within its capacity |
| UseCases.ReplaceGymKeepsConsistent | src/application/use-cases/UpdateGymUseCase.ts:41 | rewriting a gym's row under its own id, with a stored owner, keeps the database consistent |
| UseCases.ReplaceGymKeepsWithinCapacities | src/application/use-cases/UpdateGymUseCase.ts:41 | rewriting a gym's row with the same capacity keeps every gym within its capacity |
| UseCases.Backend.GetGym | src/application/use-cases/GetGymUseCase.ts:8-14 | succeeds exactly for a stored id, returning the stored gym; otherwise EntityNotFound('Gym', id) |
| UseCases.Backend.GetUser | src/application/use-cases/GetUserUseCase.ts:8-14 | succeeds exactly for a stored id, returning the stored user; otherwise EntityNotFound('User', id) |
| UseCases.Backend.GetGymsByUserId | src/application/use-cases/GetGymsByUserIdUseCase.ts:8-13 | an empty id fails with RequiredField('User ID', 'get gyms by user'); otherwise exactly the gyms that user owns |
| UseCases.Backend.EmailTaken | src/infrastructure/repositories/UserRepository.ts:11-14 | `findByEmail` finds a row exactly when a stored user has the email; under the unique email key that user is the only one |
| UseCases.Backend.ListGymUsers | src/application/use-cases/ListGymUsersUseCase.ts:12-20 | fails exactly for a missing gym; otherwise one user per membership of the gym, no user twice, exactly the users with a membership there, latest joiner first |
| UseCases.Backend.ListUserGyms | src/application/use-cases/ListUserGymsUseCase.ts:12-20 | fails exactly for a missing user; otherwise one gym per membership of the user, no gym twice, exactly the gyms the user belongs to, latest joined first |
| UseCases.UsersOf | src/application/use-cases/ListGymUsersUseCase.ts:19 | the user of each membership row, in row order |
| UseCases.GymsOf | src/application/use-cases/ListUserGymsUseCase.ts:19 | the gym of each membership row, in row order |
| UseCases.MembersFoundByOwnRow | src/application/use-cases/ListGymUsersUseCase.ts:18-19 | under the unique pair key, each projected member's membership in the gym is the row it was projected from |
| UseCases.MembersComplete | src/application/use-cases/ListGymUsersUseCase.ts:18-19 | every user with a membership in the gym is among the projected members |
| UseCases.MembersDistinct | src/application/use-cases/ListGymUsersUseCase.ts:18-19 | under the table's keys no user is projected twice from a gym's rows |
| UseCases.GymMembersFacts | src/application/use-cases/ListGymUsersUseCase.ts:18-19 | the projected users are exactly the gym's members, none twice, each found by its own row, in join-date order |
| UseCases.GymsFoundByOwnRow | src/application/use-cases/ListUserGymsUseCase.ts:18-19 | under the unique pair key, the user's membership in each projected gym is the row it was projected from |
| UseCases.GymsComplete | src/application/use-cases/ListUserGymsUseCase.ts:18-19 | every gym the user has a membership in is among the projected gyms |
| UseCases.GymsDistinct | src/application/use-cases/ListUserGymsUseCase.ts:18-19 | under the table's keys no gym is projected twice from a user's rows |
| UseCases.UserGymsFacts | src/application/use-cases/ListUserGymsUseCase.ts:18-19 | the projected gyms are exactly the user's gyms, none twice, each found by its own row, in join-date order |
| UseCases.Backend.AddUserToGym | src/application/use-cases/AddUserToGymUseCase.ts:19-49 | a missing user, then a missing gym, then an existing pair, then a full gym each fail with their own error and store nothing; success exactly when every check passes, appending one membership joined now, findable by its pair, so that repeating the call fails; the gym's count rises by one and stays within its capacity; every gym within capacity before stays so; users and gyms unchanged |
| UseCases.Backend.InsertMembership | src/infrastructure/repositories/MembershipRepository.ts:44-59 | appends the row under the new id, raising only its gym's count, and keeps the database consistent |
| UseCases.Backend.RemoveUserFromGym | src/application/use-cases/RemoveUserFromGymUseCase.ts:7-13 | fails with EntityNotFound('Membership', 'userId-gymId') exactly when the pair has no membership, deleting nothing; otherwise deletes the found row by its id, leaving all users and gyms; every gym within capacity before stays so |
| UseCases.Backend.CreateUser | src/application/use-cases/CreateUserUseCase.ts:9-25 | fails with DuplicateEntity('User', 'email', email) exactly when the email is registered, storing nothing; otherwise stores and returns one user with the given profile under the new id, after which the email counts as registered |
| UseCases.Backend.CreateGym | src/application/use-cases/CreateGymUseCase.ts:14-30 | fails with EntityNotFound('User', userId) exactly when the owner is missing, storing nothing; otherwise stores and returns one gym with that owner and normalised location and capacity, with no members |
| UseCases.Backend.UpdateGym | src/application/use-cases/UpdateGymUseCase.ts:14-42 | a missing gym, then a named but missing new owner, fail and store nothing; otherwise only that gym's row changes, to the patched gym, with the new owner when one is named; capacity kept implies every gym stays within capacity |
| UseCases.PatchGym | src/application/use-cases/UpdateGymUseCase.ts:24-39 | the loaded gym after the partial update, with the named new owner when there is one |
| UseCases.Backend.UpdateGymRow | src/infrastructure/repositories/GymRepository.ts:22-35 | the corrected update branch of `save` (`GymRepository.UpdatedRow`, see Findings): rewrites only the object's row, with the object's fields and owner, which the branch as written drops; keeps the database consistent |
| UseCases.Backend.UpdateUser | src/application/use-cases/UpdateUserUseCase.ts:9-22 | a missing user fails and stores nothing; otherwise only that user's row changes, to the patched user, an absent or empty date of birth keeping the stored date |
| UseCases.Backend.DeleteGym | src/application/use-cases/DeleteGymUseCase.ts:7-13 | fails exactly for a missing gym, removing nothing; otherwise removes that gym alone and exactly its memberships |
| UseCases.Backend.DeleteUser | src/application/use-cases/DeleteUserUseCase.ts:7-13 | fails exactly for a missing user, changing nothing; otherwise removes that user, exactly the gyms they own, and exactly the memberships of the user or of those gyms |
| Scenario.OpenGym | src/application/use-cases/CreateGymUseCase.ts:14-30 | a fresh database with one user and the single-place gym they own |
| Scenario.JoinTwice | src/application/use-cases/AddUserToGymUseCase.ts:33-48 | a first admission stores exactly one membership; repeating it is answered with 409 |
| Scenario.CrowdOut | src/application/use-cases/AddUserToGymUseCase.ts:41-45 | a second user registers, and joining the full gym is answered with 400 and stores nothing |
| Scenario.SingleSpotGym | src/application/use-cases/RemoveUserFromGymUseCase.ts:7-13 | after the first member leaves a full single-place gym, the refused user is admitted |

## Left out

- I/O, concurrency and the database itself are not modelled. Each use case is one atomic step on in-memory tables. The check-then-insert race between concurrent admissions, against which only the (user, gym) unique key protects, is not modelled. Nor is the parallel fan-out of the availability listing.
- Timestamps are readings of an abstract clock `now`. The database's own stamps (creation instant, `@updatedAt`) are taken to be the same `now` as the request.
- Ids the database generates are `newId` arguments, required to be unused and non-empty.
- `new Date(string)` is the parameter `toInstant`. Invalid dates are not modelled.
- The schema is not part of this model. Deleting a gym or a user is modelled as cascading along every relation: a gym takes its memberships with it, and a user takes their memberships and the gyms they own, with those gyms' memberships. This keeps every membership's user and gym, and every gym's owner, present. A schema that refused such deletes instead would make them fail with a database error, which is not modelled.
- The order in which the database returns all gyms, or a user's gyms with no `orderBy`, is unspecified. The listing takes that order as a parameter, and the owner lookup returns a set.
- The sort's treatment of ties is not specified by the contracts. Neither is the order among unlimited gyms, for which the comparator is inconsistent.
- The user's role is omitted. `User.create` takes none, so the value `CreateUserUseCase` passes for it is dropped.
- `RequiredFieldError` has no class in the error file. It is modelled as a fifth domain error. Its message format ("<field> is required to <operation>") is chosen here, and it reaches the generic 400 branch of the error handler.
- The gyms `ListUserGyms` returns are built by the repository's `gymToDomain` (src/infrastructure/repositories/MembershipRepository.ts:107-125). That function passes seven arguments to the eight-parameter constructor, so the owner field receives the creation instant. The model returns the stored gym row instead, because a string field cannot hold an instant here.
- The enum case conversions between the domain and the database (`toUpperCase`/`toLowerCase`) are not modelled. `console.log` is not modelled either.
- The DTO validators are not modelled, and no precondition re-imposes them (for example capacity ≥ 1). Capacities are whole non-negative numbers, so a negative or fractional capacity, which `Gym.create` and `Gym.update` would take, cannot be expressed. The owner id of `CreateGym` is always given, although `CreateGymDTO` makes it optional. No other DTO constraint is imposed: a zero capacity passed to `create` becomes unlimited, and one set by an update admits nobody.
- The following are plain wiring or calls into an external service and are not modelled:
  - Express routes, controllers and the error handler's HTTP transport;
  - authentication against the identity provider;
  - the TypeORM entity classes;
  - the one-line `ListUsers`, `ListGyms` and `ListGymsWithAvailableSpots` use cases.
- UseCases.Backend.UpdateGym: keeps every gym within capacity only when the capacity is left alone. The source does not check a new capacity against the current member count.
- UseCases.Backend.UpdateGym: stores and returns the named new owner, because it saves through the corrected `save` of the Findings table. As written, `GymRepository.save` drops the owner from the update (src/infrastructure/repositories/GymRepository.ts:23,34), so the stored row and the returned gym keep the old owner. That behaviour is `GymRepository.UpdatedRowAsWritten`.
- MembershipRepository.Delete: is modelled only for a stored id. An unknown id, on which the database's delete throws, is excluded by a precondition. The one use case that deletes a membership passes the id of a row it has just found.
- MembershipRepository.Save: the update branch is modelled only for an id that is stored. An unknown id, on which the database's update throws, is excluded by a precondition. An update that moves a row onto a (user, gym) pair another row holds, which the unique key refuses, is not ruled out. No use case takes this branch.

## Findings

| source | as written | input that shows it | evidently intended | confidence | as-written member | corrected member |
|---|---|---|---|---|---|---|
| src/infrastructure/repositories/GymRepository.ts:23-35 | the update branch of `save` removes `userId` from the written data, so the stored owner never changes | `UpdateGymUseCase` with an existing gym `g1` owned by `u1` and `dto.userId = "u2"` for an existing user `u2`: line 38 sets `gym.userId = "u2"`, but the row saved at line 41 still has owner `u1` | the manager reassignment that `UpdateGymUseCase.ts:37-39` performs is persisted | medium, not executed | GymRepository.OwnerChangeDiscardedAsWritten | GymRepository.UpdatedRowStoresObject |
