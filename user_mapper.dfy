/**
 The entity/DTO mapper: field-by-field copies between the persisted entity,
 the public DTO and the two request bodies.
 */
module UserMapper {
  import opened UserDomain

  /** Copies all four fields of the entity into a DTO. */
  function ToDto(e: UserEntity): (d: UserDto)
    ensures d.id == e.id && d.username == e.username
    ensures d.password == e.password && d.status == e.status
  {
    UserDto(e.id, e.username, e.password, e.status)
  }

  /** Copies all four fields of the DTO into an entity; undoes `ToDto`. */
  function ToEntity(d: UserDto): (e: UserEntity)
    ensures ToDto(e) == d
  {
    UserEntity(d.id, d.username, d.password, d.status)
  }

  /** A new, not yet persisted, active entity; the confirmation field is dropped. */
  function CreateToEntity(request: CreateUserRequest): (e: UserEntity)
    ensures e.id == None && e.status == Some(ACTIVATE)
    ensures e.username == request.username && e.password == request.password
  {
    UserEntity(None, request.username, request.password, Some(ACTIVATE))
  }

  /** An entity carrying only the credentials: no id and no status. */
  function UpdateToEntity(request: UpdateUserRequest): (e: UserEntity)
    ensures e.id == None && e.status == None
    ensures e.username == request.username && e.password == request.password
  {
    UserEntity(None, request.username, request.password, None)
  }

  lemma EntityRoundTrip(e: UserEntity)
    ensures ToEntity(ToDto(e)) == e
  {
  }

  lemma DtoRoundTrip(d: UserDto)
    ensures ToDto(ToEntity(d)) == d
  {
  }

  /** Two entities with the same DTO are the same entity. */
  lemma ToDtoInjective(e1: UserEntity, e2: UserEntity)
    requires ToDto(e1) == ToDto(e2)
    ensures e1 == e2
  {
  }
}
