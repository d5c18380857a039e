/** Accounts as the security layer sees them: the user row, the user table as
    a sequence searched front to back, the `UserDetails` view of a row, and
    the details service that loads rows by email or id. */
module Users {
  import opened Base

  datatype Status = Active | Suspended | Deleted | Inactive | PendingVerification

  /** A user row. `role` is the enum constant's name, e.g. "ROLE_USER";
      `passwordHash` is whatever the password encoder produced. */
  datatype User = User(
    id: int,
    email: string,
    passwordHash: string,
    name: string,
    profileImage: Option<string>,
    provider: Option<string>,
    role: string,
    status: Status,
    isActive: bool)

  const RoleUser: string := "ROLE_USER"

  /** The user table, with the database's unique constraints on id and email. */
  predicate UniqueIds(users: seq<User>) {
    forall i, j :: 0 <= i < j < |users| ==> users[i].id != users[j].id
  }

  predicate UniqueEmails(users: seq<User>) {
    forall i, j :: 0 <= i < j < |users| ==> users[i].email != users[j].email
  }

  predicate WellFormed(users: seq<User>) {
    UniqueIds(users) && UniqueEmails(users)
  }

  /** `findByEmail`: the first row with that email, or empty. */
  function FindByEmail(users: seq<User>, email: string): (r: Option<User>)
    ensures r.Some? ==> r.value in users && r.value.email == email
    ensures r.None? <==> forall u :: u in users ==> u.email != email
  {
    if |users| == 0 then None
    else if users[0].email == email then Some(users[0])
    else FindByEmail(users[1..], email)
  }

  /** `findById`: the first row with that id, or empty. */
  function FindById(users: seq<User>, id: int): (r: Option<User>)
    ensures r.Some? ==> r.value in users && r.value.id == id
    ensures r.None? <==> forall u :: u in users ==> u.id != id
  {
    if |users| == 0 then None
    else if users[0].id == id then Some(users[0])
    else FindById(users[1..], id)
  }

  /** With emails unique, the lookup finds exactly the row holding the email. */
  lemma FindByEmailExact(users: seq<User>, u: User)
    requires UniqueEmails(users) && u in users
    ensures FindByEmail(users, u.email) == Some(u)
  {
  }

  /** With ids unique, the lookup finds exactly the row holding the id. */
  lemma FindByIdExact(users: seq<User>, u: User)
    requires UniqueIds(users) && u in users
    ensures FindById(users, u.id) == Some(u)
  {
  }

  /** The largest id in the table, 0 for an empty one. */
  function MaxId(users: seq<User>): (m: int)
    ensures forall u :: u in users ==> u.id <= m
    ensures |users| > 0 ==> exists u :: u in users && u.id == m
    ensures |users| == 0 ==> m == 0
  {
    if |users| == 0 then 0
    else
      var rest := MaxId(users[1..]);
      assert forall u :: u in users ==> u == users[0] || u in users[1..];
      if |users| == 1 || users[0].id >= rest then users[0].id else rest
  }

  /** The identity column: the next id is larger than every id in use. */
  function NextId(users: seq<User>): (id: int)
    ensures forall u :: u in users ==> u.id < id
  {
    MaxId(users) + 1
  }

  /** Appending a row with a fresh id and a fresh email keeps the table well formed. */
  lemma AppendKeepsWellFormed(users: seq<User>, u: User)
    requires WellFormed(users)
    requires forall v :: v in users ==> v.id != u.id && v.email != u.email
    ensures WellFormed(users + [u])
  {
  }

  /** The `UserDetails` view of a row (CustomUserDetails). */
  function Authorities(u: User): (a: seq<string>)
    ensures |a| == 1 && a[0] == u.role
  {
    [u.role]
  }

  function Username(u: User): string { u.email }

  function Password(u: User): string { u.passwordHash }

  predicate AccountNonExpired(u: User) { true }

  predicate CredentialsNonExpired(u: User) { true }

  /** A row with `isActive` false counts as locked. */
  predicate AccountNonLocked(u: User) { u.isActive }

  /** Enabled only when the status is ACTIVE and the flag is set. */
  predicate Enabled(u: User) { u.status == Active && u.isActive }

  /** `loadUserByUsername`: `None` stands for the UsernameNotFoundException it throws. */
  function LoadUserByUsername(users: seq<User>, username: string): (r: Option<User>)
    ensures r.Some? ==> r.value in users && Username(r.value) == username
    ensures r.None? ==> forall u :: u in users ==> Username(u) != username
  {
    FindByEmail(users, username)
  }

  /** `loadUserById`: `None` stands for the UsernameNotFoundException it throws. */
  function LoadUserById(users: seq<User>, id: int): (r: Option<User>)
    ensures r.Some? ==> r.value in users && r.value.id == id
    ensures r.None? ==> forall u :: u in users ==> u.id != id
  {
    FindById(users, id)
  }

  /** `existsByEmail`. */
  function ExistsByEmail(users: seq<User>, email: string): (b: bool)
    ensures b <==> exists u :: u in users && u.email == email
  {
    FindByEmail(users, email).Some?
  }

  /** Every enabled account is also unlocked, so a lock check placed after the
      enabled check can never fire. */
  lemma EnabledIsUnlocked(u: User)
    ensures Enabled(u) ==> AccountNonLocked(u) && AccountNonExpired(u) && CredentialsNonExpired(u)
    ensures !AccountNonLocked(u) ==> !Enabled(u)
  {
  }
}
