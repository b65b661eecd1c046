# User-account service, modelled in Dafny

This project models the user-account service of a small Spring CRUD application.

- **The service.** It creates users, lists them, looks them up by username, updates their credentials, changes their status, and soft-deletes them.
- **The mapper.** It is the pure field-copying layer between the persisted entity, the public DTO and the request bodies.

The service enforces these business rules:

- the password must equal its confirmation;
- a username must not already be held by any stored user, whatever that user's status;
- an id must exist before its user is updated, has its status changed, or is deleted.

Deletion does not remove the row. It sets the status to `DELETED`.

## Layout

- `user_domain.dfy`, module `UserDomain`. It holds the status enum (`ACTIVATE`, `INACTIVATE`, `DELETED`), the entity and DTO records, and the two request bodies. It also holds the three exceptions (`InvalidInput`, `AlreadyExists`, `NotFound`), each with the exact message the service builds. Messages that contain an id render it the way Java's `Long.toString` does.
- `user_mapper.dfy`, module `UserMapper`. It holds `toDto`, the three `toEntity` overloads (named `ToEntity`, `CreateToEntity` and `UpdateToEntity`), and the round-trip lemmas.
- `user_store.dfy`, module `UserStore`. The repository is modelled as a value `Store`:
  - a finite map from the generated id to the stored columns (username, password, status);
  - the identity counter that supplies the next id.

  `findAll`, `findById`, `existsById`, `findByUsername`, `existsByUsername` and `save` are functions of that value. The invariant `Valid` says two things. First, every id lies in `[1, nextId)`, so an insert takes a fresh id. Second, no two rows share a username.
- `user_service.dfy` contains four modules:
  - **`UserService`.** The two reads, `FindAll` and `FindByUsername`, are functions of the table. The two private guards are functions too. Each of the four writes has a specification function (`CreateSpec`, `UpdateSpec`, `UpdateStatusSpec`, `DeleteSpec`), and its contract states what the operation promises. The class `UserService` holds the table in a field `store`. Its methods perform each write step by step, as the Java code does: a repository lookup, the guards, the setter changes on the fetched entity, `save`, and finally the mapping to a DTO. Each method is proved to agree with its specification and to keep `Valid`.
  - **`UserServiceProperties`.** These lemmas relate several calls. Examples: a create followed by a lookup; delete applied twice; delete compared with a status change to `DELETED`.
  - **`UserServiceScenario`.** This holds one concrete run that starts from an empty table.

The model keeps three quirks of the source, as written:

- The uniqueness check in `update` also sees the row being updated. So a password change that keeps the same username is refused with `AlreadyExists`.
- Soft-deleted users still hold their usernames.
- No status is terminal. A `DELETED` user can be set back to `ACTIVATE`, and deleting it again succeeds.

A natural reading of `update` would let users keep their own username. The code refuses this (UserService.java:56), as `UpdateToOwnUsernameFails` shows; `UserServiceScenario.ExampleRun` shows a password-only change failing in a concrete run.

## Model

| member | source | states |
|---|---|---|
| UserDomain.NatToString | src/main/java/az/edu/turing/service/UserService.java:86 | the decimal form of a non-negative id is non-empty, consists only of digits, is either the single digit `0` or starts with a non-zero digit, and read back as a decimal number gives the id |
| UserDomain.LongToString | src/main/java/az/edu/turing/service/UserService.java:86 | an id is rendered as in Java string concatenation: the text starts with a minus sign exactly when the id is negative, every other character is a digit, the digits have no leading zero (so 0 is `0` and 7 is `7`, never `007`), and the digits read back as a decimal number give the id's absolute value |
| UserDomain.UnknownIdMessage | src/main/java/az/edu/turing/service/UserService.java:84-88 | the NotFound message for an id ends with that id's decimal text |
| UserDomain.UnknownUsernameMessage | src/main/java/az/edu/turing/service/UserService.java:50 | the NotFound message for a username ends with that username |
| UserDomain.UsernameTakenMessage | src/main/java/az/edu/turing/service/UserService.java:90-94 | the AlreadyExists message ends with the offending username |
| UserMapper.ToDto | src/main/java/az/edu/turing/mapper/UserMapper.java:13-20 | the DTO carries the entity's id, username, password and status unchanged |
| UserMapper.ToEntity | src/main/java/az/edu/turing/mapper/UserMapper.java:22-29 | mapping a DTO to an entity and back gives the same DTO |
| UserMapper.CreateToEntity | src/main/java/az/edu/turing/mapper/UserMapper.java:31-37 | the entity built from a create request has no id and status ACTIVATE; it takes username and password from the request and drops the confirmation |
| UserMapper.UpdateToEntity | src/main/java/az/edu/turing/mapper/UserMapper.java:39-44 | the entity built from an update request has no id and no status, and carries only the username and password |
| UserMapper.EntityRoundTrip | src/main/java/az/edu/turing/mapper/UserMapper.java:13-29 | mapping an entity to a DTO and back gives the same entity |
| UserMapper.DtoRoundTrip | src/main/java/az/edu/turing/mapper/UserMapper.java:13-29 | mapping a DTO to an entity and back gives the same DTO |
| UserMapper.ToDtoInjective | src/main/java/az/edu/turing/mapper/UserMapper.java:13-20 | two entities with equal DTOs are equal |
| UserStore.EntityOf | src/main/java/az/edu/turing/domain/entity/UserEntity.java:15-28 | the entity read back for a row has that row's id, columns and status |
| UserStore.FindAll | src/main/java/az/edu/turing/service/UserService.java:30 | every stored row yields its entity, and every returned entity is the entity of a stored row |
| UserStore.FindById | src/main/java/az/edu/turing/service/UserService.java:54-55 | the result is present exactly when `findAll` lists an entity with that id, and it is then one of the listed entities and carries that id |
| UserStore.ExistsById | src/main/java/az/edu/turing/service/UserService.java:85 | the result is true exactly when `findById` finds the row |
| UserStore.ExistsByUsername | src/main/java/az/edu/turing/domain/repository/PostgresUserRepository.java:13 | the result is true exactly when `findAll` lists an entity, of any status, with that username |
| UserStore.ListedUsername | src/main/java/az/edu/turing/domain/repository/PostgresUserRepository.java:13 | a stored row holding a username appears in the `findAll` listing as an entity with that username |
| UserStore.FindByUsername | src/main/java/az/edu/turing/domain/repository/PostgresUserRepository.java:12 | when usernames are unique, the result is present exactly when some row has the username, and it is then the entity of that row |
| UserStore.Save | src/main/java/az/edu/turing/service/UserService.java:41-42 | an entity without a stored id is inserted under the counter's id and the counter advances; otherwise its row is overwritten; the saved entity equals the input apart from its id |
| UserStore.SaveInsertIsFresh | src/main/java/az/edu/turing/domain/entity/UserEntity.java:15-18 | an insert into a valid table takes an id no row holds, adds exactly one key, and keeps every id below the counter |
| UserService.FindAll | src/main/java/az/edu/turing/service/UserService.java:29-34 | the DTO of every stored user is listed, and every listed DTO is the DTO of a stored user |
| UserService.FindAllWithout | src/main/java/az/edu/turing/service/UserService.java:29-34 | removing one row from the table removes exactly that row's DTO from the listing, and no other listed DTO equals it |
| UserService.FindAllHasOneDtoPerRow | src/main/java/az/edu/turing/service/UserService.java:29-34 | collecting the DTOs into a set collapses nothing: the set has exactly as many elements as the table has rows |
| UserService.FindByUsername | src/main/java/az/edu/turing/service/UserService.java:47-51 | the DTO of the user with that username if one exists, otherwise NotFound with the username in its message |
| UserService.ExistsByIdGuard | src/main/java/az/edu/turing/service/UserService.java:84-88 | passes exactly when the id is stored, otherwise NotFound with the id's message |
| UserService.ExistsByUserNameGuard | src/main/java/az/edu/turing/service/UserService.java:90-94 | passes exactly when no stored user of any status has the username, otherwise AlreadyExists |
| UserService.CreateSpec | src/main/java/az/edu/turing/service/UserService.java:36-44 | the password check comes before the uniqueness check; any failure leaves the table unchanged; success adds exactly one row under a fresh id, with the requested credentials and status ACTIVATE, leaves every other row unchanged, and keeps the table valid |
| UserService.UpdateSpec | src/main/java/az/edu/turing/service/UserService.java:53-62 | an absent id gives NotFound before any uniqueness check; a username held by any row, the row being updated included, gives AlreadyExists; failures leave the table unchanged; success changes only that row's username and password, keeps its id and status and every other row, and keeps the table valid |
| UserService.UpdateStatusSpec | src/main/java/az/edu/turing/service/UserService.java:64-73 | an absent id gives NotFound and no write; otherwise exactly that row's status is set, whatever it was before, and nothing else changes |
| UserService.DeleteSpec | src/main/java/az/edu/turing/service/UserService.java:75-82 | an absent id gives NotFound and no write; otherwise the row stays in the table with status DELETED, and nothing else changes |
| UserService.UserService.constructor | src/main/java/az/edu/turing/service/UserService.java:20-27 | the service starts over the valid table it is given |
| UserService.UserService.Create | src/main/java/az/edu/turing/service/UserService.java:36-44 | the step-by-step create (compare passwords, username guard, map the request, save, map to a DTO) returns and stores exactly what `CreateSpec` prescribes, and keeps the table valid |
| UserService.UserService.Update | src/main/java/az/edu/turing/service/UserService.java:53-62 | the step-by-step update (findById, username guard, setters, save) agrees with `UpdateSpec` and keeps the table valid |
| UserService.UserService.UpdateStatus | src/main/java/az/edu/turing/service/UserService.java:64-73 | the step-by-step status update (findById, setter, save) agrees with `UpdateStatusSpec` and keeps the table valid |
| UserService.UserService.DeleteById | src/main/java/az/edu/turing/service/UserService.java:75-82 | the step-by-step delete (existence guard, findById, status setter, save) agrees with `DeleteSpec` and keeps the table valid |
| UserServiceProperties.CreateThenFindByUsername | src/main/java/az/edu/turing/service/UserService.java:36-51 | after a successful create, looking up the new username returns exactly the DTO that create returned |
| UserServiceProperties.CreateThenFindAll | src/main/java/az/edu/turing/service/UserService.java:29-44 | after a successful create, the listing is the old listing plus the new DTO, and has one more element |
| UserServiceProperties.UpdateStatusThenFindByUsername | src/main/java/az/edu/turing/service/UserService.java:47-73 | after a status change, looking up the user by username reports the new status |
| UserServiceProperties.DeleteIsStatusDeleted | src/main/java/az/edu/turing/service/UserService.java:64-82 | deleting a user has the same outcome and leaves the same table as setting its status to DELETED |
| UserServiceProperties.DeleteTwiceSucceeds | src/main/java/az/edu/turing/service/UserService.java:75-82 | a deleted user is still stored and found by id, and deleting it again succeeds and changes nothing |
| UserServiceProperties.UpdateToOwnUsernameFails | src/main/java/az/edu/turing/service/UserService.java:56 | an update that keeps the user's own username fails with AlreadyExists and leaves the table unchanged |
| UserServiceProperties.CreateBlockedByDeletedUser | src/main/java/az/edu/turing/service/UserService.java:90-94 | a soft-deleted user's username still makes create fail with AlreadyExists, and nothing is written |
| UserServiceProperties.DeletedUserCanBeReactivated | src/main/java/az/edu/turing/service/UserService.java:64-73 | a DELETED user can be set back to ACTIVATE, because no status blocks a status change |
| UserServiceScenario.ExampleRun | src/main/java/az/edu/turing/service/UserService.java:36-82 | from an empty table: create returns id 1 and ACTIVATE; a duplicate create and a password change that keeps the username both fail with AlreadyExists and write nothing; a rename succeeds with the status kept; a status change to INACTIVATE succeeds; delete succeeds, and the user is still found by id with status DELETED |

## Left out

- The HTTP controller, the bean validation it declares (`@Email`, `@NotNull`, `@Valid`), and the exception-to-status mapping. These are framework routing and response building.
- The exception handler's timestamps and request ids. They come from the clock and from random UUIDs.
- Log statements.
- The JDBC repository, its row mapper and the data-source configuration. These are SQL and connection I/O. Besides, the service does not use that repository.
- The JPA repository's SQL, transactions and the database itself. The repository is modelled only as the abstract table it exposes.
- Concurrency. The service does no locking, so a concurrent request can slip between a guard and the `save` that follows it. The model runs one operation at a time, which is why its uniqueness invariant holds.
- The order of rows returned by `findAll`. The model keeps the rows as a set, and the service collects them into a set anyway.
- Null values. The model takes every string and the status argument as present. In the source, a null password in `create` is dereferenced and throws (UserService.java:37). A null confirmation makes the `equals` comparison false, so `create` throws the "Passwords do not match" error (UserService.java:37-38). A null username is only concatenated into messages and passed to the repository (UserService.java:50, 92). A null status is only passed to `setStatus` (UserService.java:67). For these last two, any failure would come from the non-null columns when the entity is saved (UserEntity.java:20-28).
- The 64-bit range of `long` ids. Ids are unbounded integers here, and the identity counter never overflows.
- UserStore.FindByUsername: it requires unique usernames. The Spring finder throws when more than one row matches, and that case is not modelled. The service's guards keep usernames unique, so the service never meets that case.
- UserStore.Save: an entity carrying an id that no row holds is inserted under a newly generated id. The service never saves such an entity. Saving an entity without a status is excluded, because the status column is non-nullable.
- Password hashing. The source stores and returns passwords as plain text, and the model does the same.
