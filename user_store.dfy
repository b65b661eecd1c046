/**
 The user repository the service talks to, as an abstract table: a finite map
 from generated id to the stored columns, plus the identity counter that hands
 out the next id. Every query and `save` is a function of that value.
 */
module UserStore {
  import opened UserDomain

  /** The non-id columns of one stored user; every column is non-null. */
  datatype Row = Row(username: string, password: string, status: UserStatus)

  /** The table and the next value of its identity column. */
  datatype Store = Store(rows: map<int, Row>, nextId: int)

  ghost predicate UniqueUsernames(rows: map<int, Row>) {
    forall i, j :: i in rows && j in rows && rows[i].username == rows[j].username ==> i == j
  }

  /**
   Ids are generated from 1 upward, so every stored id lies below the counter;
   and no two stored users share a username, whatever their status.
   */
  ghost predicate Valid(s: Store) {
    && 1 <= s.nextId
    && (forall id :: id in s.rows ==> 1 <= id < s.nextId)
    && UniqueUsernames(s.rows)
  }

  function Empty(): (s: Store)
    ensures Valid(s) && s.rows == map[]
  {
    Store(map[], 1)
  }

  /** The entity the repository materialises for a stored row. */
  function EntityOf(id: int, row: Row): (e: UserEntity)
    ensures e.id == Some(id) && e.status == Some(row.status)
    ensures e.username == row.username && e.password == row.password
  {
    UserEntity(Some(id), row.username, row.password, Some(row.status))
  }

  /** `findAll`: the entity of every stored row (the order of rows is not modelled). */
  function FindAll(s: Store): (r: set<UserEntity>)
    ensures forall id :: id in s.rows ==> EntityOf(id, s.rows[id]) in r
    ensures forall e :: e in r ==> e.id.Some? && e.id.value in s.rows && e == EntityOf(e.id.value, s.rows[e.id.value])
  {
    set id | id in s.rows :: EntityOf(id, s.rows[id])
  }

  /** `findById`: the entity stored under `id`, if any. */
  function FindById(s: Store, id: int): (r: Option<UserEntity>)
    ensures r.Some? <==> exists e :: e in FindAll(s) && e.id == Some(id)
    ensures r.Some? ==> r.value in FindAll(s) && r.value.id == Some(id)
  {
    if id in s.rows then Some(EntityOf(id, s.rows[id])) else None
  }

  /** `existsById`. */
  function ExistsById(s: Store, id: int): (b: bool)
    ensures b <==> FindById(s, id).Some?
  {
    id in s.rows
  }

  /** `existsByUsername`: some stored row, of any status, has this username. */
  function ExistsByUsername(s: Store, username: string): (b: bool)
    ensures b <==> exists e :: e in FindAll(s) && e.username == username
  {
    ListedUsername(s, username);
    exists id | id in s.rows :: s.rows[id].username == username
  }

  /** A row holding a username shows up in `findAll` as an entity with that username. */
  lemma ListedUsername(s: Store, username: string)
    ensures (exists id :: id in s.rows && s.rows[id].username == username) ==>
              exists e :: e in FindAll(s) && e.username == username
  {
    if id :| id in s.rows && s.rows[id].username == username {
      assert EntityOf(id, s.rows[id]) in FindAll(s);
    }
  }

  /**
   `findByUsername`: the entity of the one row with this username, if any.
   The finder returns a single optional entity, so it relies on usernames being unique.
   */
  function FindByUsername(s: Store, username: string): (r: Option<UserEntity>)
    requires UniqueUsernames(s.rows)
    ensures r.Some? <==> ExistsByUsername(s, username)
    ensures r.Some? ==> r.value.id.Some? && r.value.id.value in s.rows
    ensures r.Some? ==> r.value.username == username && r.value == EntityOf(r.value.id.value, s.rows[r.value.id.value])
  {
    if ExistsByUsername(s, username) then
      var id :| id in s.rows && s.rows[id].username == username;
      Some(EntityOf(id, s.rows[id]))
    else
      None
  }

  /**
   `save`: an entity without an id, or with an id the table does not hold, is
   inserted under a freshly generated id; otherwise the row under its id is
   overwritten. Returns the saved entity (with its id) and the new table.
   The status column is non-null, so the entity must carry a status.
   */
  function Save(s: Store, e: UserEntity): (r: (UserEntity, Store))
    requires e.status.Some?
    ensures var (saved, s') := r;
      && saved.id.Some?
      && saved == e.(id := saved.id)
      && s'.rows == s.rows[saved.id.value := Row(e.username, e.password, e.status.value)]
      && (if e.id.Some? && e.id.value in s.rows
          then saved.id == e.id && s'.nextId == s.nextId
          else saved.id == Some(s.nextId) && s'.nextId == s.nextId + 1)
  {
    var row := Row(e.username, e.password, e.status.value);
    if e.id.Some? && e.id.value in s.rows then
      (e, Store(s.rows[e.id.value := row], s.nextId))
    else
      (e.(id := Some(s.nextId)), Store(s.rows[s.nextId := row], s.nextId + 1))
  }

  /** An insert into a valid table takes an id no row holds and keeps the ids below the counter. */
  lemma SaveInsertIsFresh(s: Store, e: UserEntity)
    requires Valid(s) && e.status.Some? && e.id.None?
    ensures var (saved, s') := Save(s, e);
      && saved.id.value !in s.rows
      && s'.rows.Keys == s.rows.Keys + {saved.id.value}
      && |s'.rows| == |s.rows| + 1
      && forall id :: id in s'.rows ==> 1 <= id < s'.nextId
  {
  }
}
