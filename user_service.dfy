/**
 The user-account service: the business rules (password confirmation, global
 username uniqueness, existence by id) guarding each read and write of the
 user table, and the soft-delete status lifecycle.

 Each state-changing operation is specified by a function of the table
 (`CreateSpec`, `UpdateSpec`, `UpdateStatusSpec`, `DeleteSpec`) whose contract
 states what the operation promises; the class `UserService` holds the table
 and performs the same operations step by step through the repository calls,
 and each of its methods is proved to agree with its specification.
 */
module UserService {
  import opened UserDomain
  import opened UserStore
  import UserMapper

  /** The DTO the service returns for the row stored under `id`. */
  function DtoOf(s: Store, id: int): (d: UserDto)
    requires id in s.rows
    ensures d.id == Some(id) && d.status == Some(s.rows[id].status)
    ensures d.username == s.rows[id].username && d.password == s.rows[id].password
  {
    UserMapper.ToDto(EntityOf(id, s.rows[id]))
  }

  // ---------------------------------------------------------------- reads

  /** `findAll`: the DTO of every stored user, collected into a set. */
  function FindAll(s: Store): (r: set<UserDto>)
    ensures forall id :: id in s.rows ==> DtoOf(s, id) in r
    ensures forall d :: d in r ==> d.id.Some? && d.id.value in s.rows && d == DtoOf(s, d.id.value)
  {
    set e | e in UserStore.FindAll(s) :: UserMapper.ToDto(e)
  }

  /** Removing one row from the table removes exactly its DTO from the listing. */
  lemma FindAllWithout(s: Store, k: int)
    requires k in s.rows
    ensures var rest := Store(s.rows - {k}, s.nextId);
      FindAll(s) == FindAll(rest) + {DtoOf(s, k)} && DtoOf(s, k) !in FindAll(rest)
  {
    var rest := Store(s.rows - {k}, s.nextId);
    forall d ensures d in FindAll(s) <==> d in FindAll(rest) + {DtoOf(s, k)} {
      if d in FindAll(s) && d.id.value != k {
        assert d == DtoOf(rest, d.id.value);
      }
      if d in FindAll(rest) {
        assert d == DtoOf(s, d.id.value);
      }
    }
  }

  /**
   No two rows collapse into one element of the set: `findAll` returns exactly
   one DTO per stored user, because each DTO carries its row's id.
   */
  lemma {:induction false} FindAllHasOneDtoPerRow(s: Store)
    ensures |FindAll(s)| == |s.rows|
    decreases |s.rows|
  {
    if k :| k in s.rows {
      var rest := Store(s.rows - {k}, s.nextId);
      FindAllHasOneDtoPerRow(rest);
      FindAllWithout(s, k);
      assert |s.rows - {k}| == |s.rows| - 1;
    } else {
      forall id ensures id in s.rows.Keys <==> id in {} { }
      assert s.rows.Keys == {};
      forall d ensures d in FindAll(s) <==> d in {} { }
      assert FindAll(s) == {};
    }
  }

  /** `findByUsername`: the DTO of the user with this username, or NotFound. */
  function FindByUsername(s: Store, username: string): (r: Result<UserDto>)
    requires UniqueUsernames(s.rows)
    ensures r.Ok? <==> exists id :: id in s.rows && s.rows[id].username == username
    ensures r.Ok? ==> r.value.id.Some? && r.value.id.value in s.rows
    ensures r.Ok? ==> r.value.username == username && r.value == DtoOf(s, r.value.id.value)
    ensures r.Err? ==> r.error == NotFound(UnknownUsernameMessage(username))
  {
    match UserStore.FindByUsername(s, username)
    case Some(e) => Ok(UserMapper.ToDto(e))
    case None => Err(NotFound(UnknownUsernameMessage(username)))
  }

  // --------------------------------------------------------------- guards

  /** The private `existsById` guard: NotFound unless a row has this id. */
  function ExistsByIdGuard(s: Store, id: int): (o: Outcome)
    ensures o.Pass? <==> id in s.rows
    ensures o.Fail? ==> o.error == NotFound(UnknownIdMessage(id))
  {
    if !ExistsById(s, id) then Fail(NotFound(UnknownIdMessage(id))) else Pass
  }

  /** The private `existsByUserName` guard: AlreadyExists if any row, of any status, has this username. */
  function ExistsByUserNameGuard(s: Store, username: string): (o: Outcome)
    ensures o.Pass? <==> forall id :: id in s.rows ==> s.rows[id].username != username
    ensures o.Fail? ==> o.error == AlreadyExists(UsernameTakenMessage(username))
  {
    if ExistsByUsername(s, username) then Fail(AlreadyExists(UsernameTakenMessage(username))) else Pass
  }

  // ------------------------------------------------------- specifications

  /**
   `create`: the password check runs first, then the uniqueness check; on
   success exactly one row is added, under a fresh id, active, holding the
   requested credentials. No failure writes.
   */
  function CreateSpec(s: Store, request: CreateUserRequest): (r: (Result<UserDto>, Store))
    requires Valid(s)
    ensures Valid(r.1)
    ensures r.0.Err? ==> r.1 == s
    ensures request.password != request.confirmPassword ==> r.0 == Err(InvalidInput(PasswordsMismatch))
    ensures request.password == request.confirmPassword && ExistsByUsername(s, request.username) ==>
              r.0 == Err(AlreadyExists(UsernameTakenMessage(request.username)))
    ensures r.0.Ok? <==> request.password == request.confirmPassword && !ExistsByUsername(s, request.username)
    ensures r.0.Ok? ==>
              var d := r.0.value;
              && d.id.Some? && d.id.value !in s.rows
              && r.1.rows.Keys == s.rows.Keys + {d.id.value}
              && r.1.rows[d.id.value] == Row(request.username, request.password, ACTIVATE)
              && (forall id :: id in s.rows ==> r.1.rows[id] == s.rows[id])
              && d == DtoOf(r.1, d.id.value)
  {
    if request.password != request.confirmPassword then
      (Err(InvalidInput(PasswordsMismatch)), s)
    else if ExistsByUsername(s, request.username) then
      (Err(AlreadyExists(UsernameTakenMessage(request.username))), s)
    else
      var id := s.nextId;
      var row := Row(request.username, request.password, ACTIVATE);
      (Ok(UserDto(Some(id), row.username, row.password, Some(ACTIVATE))), Store(s.rows[id := row], id + 1))
  }

  /**
   `update`: NotFound for an absent id comes before the uniqueness check, which
   also counts the row being updated; on success only that row's username and
   password change. No failure writes.
   */
  function UpdateSpec(s: Store, id: int, request: UpdateUserRequest): (r: (Result<UserDto>, Store))
    requires Valid(s)
    ensures Valid(r.1)
    ensures r.0.Err? ==> r.1 == s
    ensures id !in s.rows ==> r.0 == Err(NotFound(UnknownIdMessage(id)))
    ensures id in s.rows && ExistsByUsername(s, request.username) ==>
              r.0 == Err(AlreadyExists(UsernameTakenMessage(request.username)))
    ensures r.0.Ok? <==> id in s.rows && !ExistsByUsername(s, request.username)
    ensures r.0.Ok? ==>
              && r.1.nextId == s.nextId
              && r.1.rows.Keys == s.rows.Keys
              && r.1.rows[id].username == request.username
              && r.1.rows[id].password == request.password
              && r.1.rows[id].status == s.rows[id].status
              && (forall k :: k in s.rows && k != id ==> r.1.rows[k] == s.rows[k])
              && r.0.value == DtoOf(r.1, id)
  {
    if id !in s.rows then
      (Err(NotFound(UnknownIdMessage(id))), s)
    else if ExistsByUsername(s, request.username) then
      (Err(AlreadyExists(UsernameTakenMessage(request.username))), s)
    else
      var row := Row(request.username, request.password, s.rows[id].status);
      (Ok(UserDto(Some(id), row.username, row.password, Some(row.status))), Store(s.rows[id := row], s.nextId))
  }

  /**
   `updateStatus`: NotFound for an absent id; otherwise the row's status is
   set, whatever it was before (DELETED included), and nothing else changes.
   */
  function UpdateStatusSpec(s: Store, id: int, status: UserStatus): (r: (Result<UserDto>, Store))
    requires Valid(s)
    ensures Valid(r.1)
    ensures r.0.Err? ==> r.1 == s
    ensures r.0.Ok? <==> id in s.rows
    ensures r.0.Err? ==> r.0.error == NotFound(UnknownIdMessage(id))
    ensures r.0.Ok? ==>
              && r.1.nextId == s.nextId
              && r.1.rows.Keys == s.rows.Keys
              && r.1.rows[id].status == status
              && r.1.rows[id].username == s.rows[id].username
              && r.1.rows[id].password == s.rows[id].password
              && (forall k :: k in s.rows && k != id ==> r.1.rows[k] == s.rows[k])
              && r.0.value == DtoOf(r.1, id)
  {
    if id !in s.rows then
      (Err(NotFound(UnknownIdMessage(id))), s)
    else
      var row := s.rows[id].(status := status);
      (Ok(UserDto(Some(id), row.username, row.password, Some(status))), Store(s.rows[id := row], s.nextId))
  }

  /**
   `deleteById`: NotFound for an absent id; otherwise a soft delete, the row
   stays in the table with status DELETED and nothing else changes.
   */
  function DeleteSpec(s: Store, id: int): (r: (Outcome, Store))
    requires Valid(s)
    ensures Valid(r.1)
    ensures r.0.Fail? ==> r.1 == s
    ensures r.0.Pass? <==> id in s.rows
    ensures r.0.Fail? ==> r.0.error == NotFound(UnknownIdMessage(id))
    ensures r.0.Pass? ==>
              && r.1.nextId == s.nextId
              && r.1.rows.Keys == s.rows.Keys
              && r.1.rows[id].status == DELETED
              && r.1.rows[id].username == s.rows[id].username
              && r.1.rows[id].password == s.rows[id].password
              && (forall k :: k in s.rows && k != id ==> r.1.rows[k] == s.rows[k])
  {
    if id !in s.rows then
      (Fail(NotFound(UnknownIdMessage(id))), s)
    else
      (Pass, Store(s.rows[id := s.rows[id].(status := DELETED)], s.nextId))
  }

  // --------------------------------------------------------------- the service

  /** The service over the user table it reads and writes through its repository. */
  class UserService {
    var store: Store

    ghost predicate Valid()
      reads this
    {
      UserStore.Valid(store)
    }

    constructor (initial: Store)
      requires UserStore.Valid(initial)
      ensures Valid() && store == initial
    {
      store := initial;
    }

    method Create(request: CreateUserRequest) returns (r: Result<UserDto>)
      requires Valid()
      modifies this
      ensures Valid()
      ensures (r, store) == CreateSpec(old(store), request)
    {
      if request.password != request.confirmPassword {
        return Err(InvalidInput(PasswordsMismatch));
      }
      var guard := ExistsByUserNameGuard(store, request.username);
      if guard.Fail? {
        return Err(guard.error);
      }
      var entity := UserMapper.CreateToEntity(request);
      var (saved, next) := Save(store, entity);
      store := next;
      r := Ok(UserMapper.ToDto(saved));
    }

    method Update(id: int, request: UpdateUserRequest) returns (r: Result<UserDto>)
      requires Valid()
      modifies this
      ensures Valid()
      ensures (r, store) == UpdateSpec(old(store), id, request)
    {
      var found := FindById(store, id);
      if found.None? {
        return Err(NotFound(UnknownIdMessage(id)));
      }
      var guard := ExistsByUserNameGuard(store, request.username);
      if guard.Fail? {
        return Err(guard.error);
      }
      var entity := found.value.(username := request.username, password := request.password);
      var (saved, next) := Save(store, entity);
      store := next;
      r := Ok(UserMapper.ToDto(saved));
    }

    method UpdateStatus(id: int, status: UserStatus) returns (r: Result<UserDto>)
      requires Valid()
      modifies this
      ensures Valid()
      ensures (r, store) == UpdateStatusSpec(old(store), id, status)
    {
      var found := FindById(store, id);
      if found.None? {
        return Err(NotFound(UnknownIdMessage(id)));
      }
      var entity := found.value.(status := Some(status));
      var (updated, next) := Save(store, entity);
      store := next;
      r := Ok(UserMapper.ToDto(updated));
    }

    method DeleteById(id: int) returns (o: Outcome)
      requires Valid()
      modifies this
      ensures Valid()
      ensures (o, store) == DeleteSpec(old(store), id)
    {
      var guard := ExistsByIdGuard(store, id);
      if guard.Fail? {
        return guard;
      }
      var found := FindById(store, id);
      if found.Some? {
        var entity := found.value.(status := Some(DELETED));
        var (_, next) := Save(store, entity);
        store := next;
      }
      o := Pass;
    }
  }
}

/**
 Properties that relate several calls of the service, and the quirks of its
 guards, stated over the specification functions.
 */
module UserServiceProperties {
  import opened UserDomain
  import UserStore
  import opened UserService

  /** A created user is found by its username, with the same DTO `create` returned. */
  lemma CreateThenFindByUsername(s: UserStore.Store, request: CreateUserRequest)
    requires UserStore.Valid(s)
    requires CreateSpec(s, request).0.Ok?
    ensures FindByUsername(CreateSpec(s, request).1, request.username) == CreateSpec(s, request).0
  {
  }

  /** After a successful `create`, `findAll` lists exactly the old users plus the new one. */
  lemma CreateThenFindAll(s: UserStore.Store, request: CreateUserRequest)
    requires UserStore.Valid(s)
    requires CreateSpec(s, request).0.Ok?
    ensures FindAll(CreateSpec(s, request).1) == FindAll(s) + {CreateSpec(s, request).0.value}
    ensures |FindAll(CreateSpec(s, request).1)| == |FindAll(s)| + 1
  {
    var (r, s') := CreateSpec(s, request);
    var id := r.value.id.value;
    forall d ensures d in FindAll(s') <==> d in FindAll(s) + {r.value} {
      if d in FindAll(s') && d.id.value != id {
        assert d == DtoOf(s, d.id.value);
      }
      if d in FindAll(s) {
        assert d == DtoOf(s', d.id.value);
      }
    }
    assert FindAll(s') == FindAll(s) + {r.value};
    assert r.value !in FindAll(s);
  }

  /** A status set by `updateStatus` is what `findByUsername` then reports. */
  lemma UpdateStatusThenFindByUsername(s: UserStore.Store, id: int, status: UserStatus)
    requires UserStore.Valid(s) && id in s.rows
    ensures var (r, s') := UpdateStatusSpec(s, id, status);
      FindByUsername(s', s.rows[id].username) == r && r.Ok? && r.value.status == Some(status)
  {
  }

  /** Deleting is setting the status to DELETED: same outcome, same table. */
  lemma DeleteIsStatusDeleted(s: UserStore.Store, id: int)
    requires UserStore.Valid(s)
    ensures DeleteSpec(s, id).1 == UpdateStatusSpec(s, id, DELETED).1
    ensures DeleteSpec(s, id).0.Pass? == UpdateStatusSpec(s, id, DELETED).0.Ok?
  {
  }

  /** A deleted user stays in the table; deleting it again succeeds and changes nothing. */
  lemma DeleteTwiceSucceeds(s: UserStore.Store, id: int)
    requires UserStore.Valid(s) && id in s.rows
    ensures var (o1, s1) := DeleteSpec(s, id);
      && o1 == Pass && id in s1.rows && UserStore.FindById(s1, id).Some?
      && DeleteSpec(s1, id) == (Pass, s1)
  {
    var (_, s1) := DeleteSpec(s, id);
    var row := s1.rows[id];
    assert row.(status := DELETED) == row;
    var s2 := DeleteSpec(s1, id).1;
    forall k ensures k in s2.rows <==> k in s1.rows {}
    assert s2.rows == s1.rows;
  }

  /** `update` that keeps the user's own username is refused: the uniqueness check sees the row itself. */
  lemma UpdateToOwnUsernameFails(s: UserStore.Store, id: int, request: UpdateUserRequest)
    requires UserStore.Valid(s) && id in s.rows
    requires request.username == s.rows[id].username
    ensures UpdateSpec(s, id, request) == (Err(AlreadyExists(UsernameTakenMessage(request.username))), s)
  {
  }

  /** A soft-deleted user still holds its username against `create`. */
  lemma CreateBlockedByDeletedUser(s: UserStore.Store, id: int, request: CreateUserRequest)
    requires UserStore.Valid(s) && id in s.rows && s.rows[id].status == DELETED
    requires request.username == s.rows[id].username
    requires request.password == request.confirmPassword
    ensures CreateSpec(s, request) == (Err(AlreadyExists(UsernameTakenMessage(request.username))), s)
  {
  }

  /** No status is terminal: a deleted user can be set back to active. */
  lemma DeletedUserCanBeReactivated(s: UserStore.Store, id: int)
    requires UserStore.Valid(s) && id in s.rows && s.rows[id].status == DELETED
    ensures UpdateStatusSpec(s, id, ACTIVATE).0.Ok?
    ensures UpdateStatusSpec(s, id, ACTIVATE).1.rows[id].status == ACTIVATE
  {
  }
}

/**
 A concrete run of the service from an empty table: create, a duplicate
 create, a password change that keeps the username (refused), a rename,
 a status change and a soft delete.
 */
module UserServiceScenario {
  import opened UserDomain
  import UserStore
  import opened UserService

  lemma ExampleRun()
    ensures
      var s0 := UserStore.Empty();
      var (created, s1) := CreateSpec(s0, CreateUserRequest("u1", "pw1", "pw1"));
      var (duplicate, s2) := CreateSpec(s1, CreateUserRequest("u1", "pw1", "pw1"));
      var (keepName, s3) := UpdateSpec(s1, 1, UpdateUserRequest("u1", "pw2"));
      var (renamed, s4) := UpdateSpec(s1, 1, UpdateUserRequest("u2", "pw2"));
      var (inactive, s5) := UpdateStatusSpec(s4, 1, INACTIVATE);
      var (deleted, s6) := DeleteSpec(s5, 1);
      && created == Ok(UserDto(Some(1), "u1", "pw1", Some(ACTIVATE)))
      && duplicate == Err(AlreadyExists(UsernameTakenMessage("u1"))) && s2 == s1
      && keepName == Err(AlreadyExists(UsernameTakenMessage("u1"))) && s3 == s1
      && renamed == Ok(UserDto(Some(1), "u2", "pw2", Some(ACTIVATE)))
      && inactive == Ok(UserDto(Some(1), "u2", "pw2", Some(INACTIVATE)))
      && deleted == Pass
      && UserStore.FindById(s6, 1) == Some(UserEntity(Some(1), "u2", "pw2", Some(DELETED)))
  {
  }
}
