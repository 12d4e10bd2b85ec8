/** The `User` entity and the unique index on its user name. */
module UserModel {
  import opened Types
  import opened Annotations
  import opened Tables

  datatype User = User(
    userId: int,
    username: Option<string>,
    passwordHash: Option<string>,
    fullName: Option<string>,
    email: Option<string>,
    mobileNumber: Option<string>,
    roleId: int,
    createdDate: Ticks,
    isActive: bool,
    profileImagePath: Option<string>)

  function UserId(u: User): int { u.userId }

  /** The validation attributes on the entity's properties. */
  function UserValid(u: User, fmt: Formats): (ok: bool)
    ensures ok ==> u.username.Some? && 1 <= |u.username.value| <= 50
    ensures ok ==> u.passwordHash.Some? && 1 <= |u.passwordHash.value| <= 256
    ensures ok ==> u.fullName.Some? && 1 <= |u.fullName.value| <= 100
    ensures ok ==> u.email.Some? && fmt.isEmail(u.email.value)
    ensures ok ==> u.mobileNumber.Some? && fmt.isPhone(u.mobileNumber.value) && 1 <= |u.mobileNumber.value| <= 20
    ensures ok && u.profileImagePath.Some? ==> |u.profileImagePath.value| <= 200
  {
    && Required(u.username) && StringLength(u.username, 50)
    && Required(u.passwordHash) && StringLength(u.passwordHash, 256)
    && Required(u.fullName) && StringLength(u.fullName, 100)
    && Required(u.email) && Format(u.email, fmt.isEmail)
    && Required(u.mobileNumber) && Format(u.mobileNumber, fmt.isPhone) && StringLength(u.mobileNumber, 20)
    && StringLength(u.profileImagePath, 200)
  }

  /** The unique index on `Username`: no two rows share a user name. */
  function UniqueUsernames(users: Table<User>): (ok: bool)
    ensures ok ==> forall a, b :: (a in users.rows && b in users.rows &&
                                   users.rows[a].username == users.rows[b].username) ==> a == b
  {
    forall a, b :: a in users.rows && b in users.rows && a != b ==>
      users.rows[a].username != users.rows[b].username
  }

  /** `Users.Any(u => u.Username == name)`. */
  function UsernameTaken(users: Table<User>, name: Option<string>): (ok: bool)
    ensures !ok ==> forall k :: k in users.rows ==> users.rows[k].username != name
  {
    exists k :: k in users.rows && users.rows[k].username == name
  }
}
