/**
 The value types the user-account service passes around: the lifecycle status,
 the persisted entity, the public DTO, the two request bodies, and the three
 business exceptions with their messages.
 */
module UserDomain {

  /** Lifecycle flag of an account; deletion is the status DELETED, not a row removal. */
  datatype UserStatus = ACTIVATE | INACTIVATE | DELETED

  datatype Option<+T> = None | Some(value: T)

  /**
   The persisted record. `id` is a nullable `Long` (absent before the first save)
   and `status` a nullable enum (absent in an entity built from an update request).
   */
  datatype UserEntity = UserEntity(
    id: Option<int>,
    username: string,
    password: string,
    status: Option<UserStatus>)

  /** The outward-facing shape of a user; the same four fields as the entity. */
  datatype UserDto = UserDto(
    id: Option<int>,
    username: string,
    password: string,
    status: Option<UserStatus>)

  datatype CreateUserRequest = CreateUserRequest(
    username: string,
    password: string,
    confirmPassword: string)

  datatype UpdateUserRequest = UpdateUserRequest(
    username: string,
    password: string)

  /** The exception the service throws, with the message it carries. */
  datatype Error =
    | InvalidInput(message: string)
    | AlreadyExists(message: string)
    | NotFound(message: string)

  /** A value-returning operation either returns a value or throws. */
  datatype Result<+T> = Ok(value: T) | Err(error: Error)

  /** A `void` operation either completes or throws. */
  datatype Outcome = Pass | Fail(error: Error)

  const PasswordsMismatch: string := "Passwords do not match"

  function UsernameTakenMessage(username: string): (m: string)
    ensures |username| < |m| && m[|m| - |username|..] == username
  {
    "user already exists with this username " + username
  }

  function UnknownUsernameMessage(username: string): (m: string)
    ensures |username| < |m| && m[|m| - |username|..] == username
  {
    "There is not user with username " + username
  }

  function UnknownIdMessage(id: int): (m: string)
    ensures |LongToString(id)| < |m| && m[|m| - |LongToString(id)|..] == LongToString(id)
  {
    "There is not user with id " + LongToString(id)
  }

  function DigitChar(d: nat): (c: char)
    requires d < 10
    ensures '0' <= c <= '9'
    ensures c as int - '0' as int == d
  {
    "0123456789"[d]
  }

  /** The number a string of decimal digits denotes, read most significant digit first. */
  function DigitsValue(s: string): nat
    requires forall i :: 0 <= i < |s| ==> '0' <= s[i] <= '9'
  {
    if s == [] then 0 else 10 * DigitsValue(s[..|s| - 1]) + (s[|s| - 1] as int - '0' as int)
  }

  /** Decimal digits of a non-negative number, most significant first, no leading zeros. */
  function NatToString(n: nat): (s: string)
    ensures 1 <= |s|
    ensures forall i :: 0 <= i < |s| ==> '0' <= s[i] <= '9'
    ensures n != 0 ==> s[0] != '0'
    ensures |s| == 1 || s[0] != '0'
    ensures DigitsValue(s) == n
    decreases n
  {
    if n < 10 then [DigitChar(n)] else NatToString(n / 10) + [DigitChar(n % 10)]
  }

  /** Java's `Long.toString`: a minus sign for negative values, then the digits. */
  function LongToString(n: int): (s: string)
    ensures 1 <= |s|
    ensures (s[0] == '-') <==> n < 0
    ensures forall i :: 0 < i < |s| ==> '0' <= s[i] <= '9'
    ensures n >= 0 ==> (forall i :: 0 <= i < |s| ==> '0' <= s[i] <= '9') && DigitsValue(s) == n
    ensures n < 0 ==> DigitsValue(s[1..]) == -n
    ensures n >= 0 ==> |s| == 1 || s[0] != '0'
    ensures n < 0 ==> 2 <= |s| && (|s| == 2 || s[1] != '0')
  {
    if n < 0 then "-" + NatToString(-n) else NatToString(n)
  }
}
