/** The client and user tables the core reads. Each table is a sequence of
    rows; `SELECT … WHERE … .first()` is the first row that matches. */
module Registry {
  import opened Common

  datatype Client = Client(id: string, name: string, secret: string)

  datatype User = User(id: int, username: string, passwordHash: string, email: string)

  /** `bcrypt.compare(password, passwordHash)`: an opaque verifier. */
  type PasswordCheck = (string, string) -> bool

  /** `getClientById`. */
  function ClientById(clients: seq<Client>, id: string): (r: Option<Client>)
    ensures r.Some? ==> r.value in clients && r.value.id == id
    ensures r.None? <==> forall c :: c in clients ==> c.id != id
  {
    First(clients, (c: Client) => c.id == id)
  }

  /** Whether a client is found, and its id, depend on the table's ids
      only: names and secrets play no part. */
  lemma ClientByIdSameIds(a: seq<Client>, b: seq<Client>, id: string)
    requires |a| == |b| && forall i :: 0 <= i < |a| ==> a[i].id == b[i].id
    ensures ClientById(a, id).Some? <==> ClientById(b, id).Some?
  {
    if ClientById(a, id).Some? {
      var i :| 0 <= i < |a| && a[i] == ClientById(a, id).value;
      assert b[i] in b;
    }
    if ClientById(b, id).Some? {
      var i :| 0 <= i < |b| && b[i] == ClientById(b, id).value;
      assert a[i] in a;
    }
  }

  /** `getUserByUsername`. */
  function UserByUsername(users: seq<User>, username: string): (r: Option<User>)
    ensures r.Some? ==> r.value in users && r.value.username == username
    ensures r.None? <==> forall u :: u in users ==> u.username != username
  {
    First(users, (u: User) => u.username == username)
  }

  /** `getUserById`. */
  function UserById(users: seq<User>, id: int): (r: Option<User>)
    ensures r.Some? ==> r.value in users && r.value.id == id
    ensures r.None? <==> forall u :: u in users ==> u.id != id
  {
    First(users, (u: User) => u.id == id)
  }

  /** `checkPassword(user, password)`. */
  function CheckPassword(check: PasswordCheck, user: User, password: string): bool
  {
    check(password, user.passwordHash)
  }

  /** The password is checked against the stored hash alone: two users with
      the same hash accept the same passwords, whatever their id, name or
      email. */
  lemma PasswordCheckedAgainstHash(check: PasswordCheck, a: User, b: User, password: string)
    requires a.passwordHash == b.passwordHash
    ensures CheckPassword(check, a, password) == CheckPassword(check, b, password)
    ensures CheckPassword(check, a, password) == check(password, a.passwordHash)
  {
  }

  ghost predicate UniqueUserIds(users: seq<User>)
  {
    forall i, j :: 0 <= i < j < |users| ==> users[i].id != users[j].id
  }

  /** With unique ids (the table's primary key), the user found by name is
      found again by its id. */
  lemma UserByIdFindsNamedUser(users: seq<User>, username: string)
    requires UniqueUserIds(users)
    requires UserByUsername(users, username).Some?
    ensures UserById(users, UserByUsername(users, username).value.id) == UserByUsername(users, username)
  {
    var u := UserByUsername(users, username).value;
    var found := UserById(users, u.id);
    var i :| 0 <= i < |users| && users[i] == found.value;
    var j :| 0 <= j < |users| && users[j] == u;
    assert i == j;
  }
}
