/** `HomeController`: registration and the stored password hash. */
module Home {
  import opened Types
  import opened Annotations
  import opened Tables
  import opened Hex
  import opened UserModel
  import opened RegistrationModel

  /** A SHA-256 digest: 32 bytes. */
  type Digest = s: seq<byte> | |s| == 32 witness seq(32, _ => 0 as byte)

  /** SHA-256 of a password's UTF-8 encoding; the algorithm itself is not modelled. */
  type Sha256 = string -> Digest

  /** `HashPassword`: the digest of the password written as lower-case hex.
      No salt is involved, so the hash is a function of the password alone. */
  function HashPassword(password: string, sha256: Sha256): (h: string)
    ensures |h| == 64
    ensures forall i :: 0 <= i < |h| ==> IsLowerHexDigit(h[i])
    ensures ParseHex(h) == Some(sha256(password))
  {
    ParseBytesToHex(sha256(password));
    BytesToHex(sha256(password))
  }

  /** Two passwords get the same stored hash exactly when their digests agree. */
  lemma SameHashIffSameDigest(p: string, q: string, sha256: Sha256)
    ensures HashPassword(p, sha256) == HashPassword(q, sha256) <==> sha256(p) == sha256(q)
  {
  }

  /** POST `Register`. A valid form whose user name is free becomes a new,
      active user holding the password's hash; otherwise nothing is stored. */
  function Register(users: Table<User>, form: RegistrationForm, fmt: Formats,
                    sha256: Sha256, now: Ticks): (r: Result<Table<User>>)
    requires TableWf(users, UserId)
    ensures TableWf(r.store, UserId)
    ensures r.outcome == Ok <==> RegistrationValid(form, fmt) && !UsernameTaken(users, form.userName)
    ensures !RegistrationValid(form, fmt) ==> r == Result(users, Invalid)
    ensures RegistrationValid(form, fmt) && UsernameTaken(users, form.userName) ==> r == Result(users, UserExists)
    ensures r.outcome == Ok ==>
      && r.store.rows.Keys == users.rows.Keys + {users.nextId}
      && |r.store.rows| == |users.rows| + 1
      && (forall k :: k in users.rows ==> r.store.rows[k] == users.rows[k])
    ensures r.outcome == Ok ==>
      var u := r.store.rows[users.nextId];
      && u.username == form.userName
      && u.passwordHash == Some(HashPassword(form.password.value, sha256))
      && u.fullName == form.fullName
      && u.email == form.email
      && u.mobileNumber == form.mobileNumber
      && u.roleId == form.roleId
      && u.createdDate == now
      && u.isActive
      && u.profileImagePath == None
    ensures UniqueUsernames(users) ==> UniqueUsernames(r.store)
  {
    if !RegistrationValid(form, fmt) then Result(users, Invalid)
    else if UsernameTaken(users, form.userName) then Result(users, UserExists)
    else
      var user := User(users.nextId, form.userName, Some(HashPassword(form.password.value, sha256)),
                       form.fullName, form.email, form.mobileNumber, form.roleId, now, true, None);
      Result(Insert(users, user), Ok)
  }

  /** Once a registration succeeds, a second valid form with the same user
      name is refused and the first user stays as stored. */
  lemma RegisterSameNameTwice(users: Table<User>, first: RegistrationForm, second: RegistrationForm,
                              fmt: Formats, sha256: Sha256, now: Ticks, later: Ticks)
    requires TableWf(users, UserId)
    requires Register(users, first, fmt, sha256, now).outcome == Ok
    requires RegistrationValid(second, fmt) && second.userName == first.userName
    ensures var after := Register(users, first, fmt, sha256, now).store;
            Register(after, second, fmt, sha256, later) == Result(after, UserExists)
  {
    var after := Register(users, first, fmt, sha256, now).store;
    assert after.rows[users.nextId].username == second.userName;
  }

  /** A user created from a valid form satisfies every bound of the entity:
      the form's limits match the columns', and the 64-digit hash fits in 256. */
  lemma RegisteredUserValid(users: Table<User>, form: RegistrationForm, fmt: Formats,
                            sha256: Sha256, now: Ticks)
    requires TableWf(users, UserId)
    requires Register(users, form, fmt, sha256, now).outcome == Ok
    ensures UserValid(Register(users, form, fmt, sha256, now).store.rows[users.nextId], fmt)
  {
    var h := HashPassword(form.password.value, sha256);
    Utf16LengthBmp(h);
    assert !IsWhiteSpace(h[0]);
  }
}
