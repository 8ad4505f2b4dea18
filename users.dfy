/** The user routes of backend/routes/userRoutes.js: the admin's user
    listing and a caller's own profile update. */
module Users {
  import opened Query
  import opened Store

  /** A row of `GET /api/users`: every column but the password hash. */
  datatype UserRow = UserRow(
    id: Id, username: string, email: string, fullName: string, phone: string,
    role: Role, created: nat)

  /** The row `PUT /api/users/profile` answers with: no password, no
      creation time. */
  datatype Profile = Profile(
    id: Id, username: string, email: string, fullName: string, phone: string, role: Role)

  function RowOf(u: User): UserRow {
    UserRow(u.id, u.username, u.email, u.fullName, u.phone, u.role, u.created)
  }

  function ProfileOf(u: User): Profile {
    Profile(u.id, u.username, u.email, u.fullName, u.phone, u.role)
  }

  function UserKey(u: User): seq<int> {
    NewestFirstKey(u.created)
  }

  /** `SELECT ... FROM users ORDER BY created_at DESC`: every user once,
      each under its own id, newest first. */
  function UsersNewestFirst(t: Tables): (rows: seq<User>)
    requires t.Valid()
    ensures forall u :: u in rows ==> u.id in t.users && t.users[u.id] == u
    ensures forall u :: u in t.users.Values ==> u in rows
    ensures |rows| == |t.users|
    ensures forall i, j :: 0 <= i < j < |rows| ==> rows[i].created >= rows[j].created
  {
    var everyone := (u: User) => true;
    var rows := SelectSorted(t.users, t.nextUser, everyone, UserKey);
    NewestFirst(rows, UserKey, (u: User) => u.created);
    assert forall u :: u in rows ==> u.id in t.users && t.users[u.id] == u by {
      forall u | u in rows ensures u.id in t.users && t.users[u.id] == u {
        var k :| k in t.users && t.users[k] == u;
      }
    }
    assert KeysWhere(t.users, everyone) == t.users.Keys by {
      forall k ensures k in KeysWhere(t.users, everyone) <==> k in t.users.Keys {
      }
    }
    rows
  }

  /** `GET /api/users`, admin only. */
  function ListUsers(t: Tables, actor: Actor): (r: seq<UserRow>)
    requires IsAdmin(actor)
    requires t.Valid()
    ensures forall i :: 0 <= i < |r| ==> r[i].id in t.users && r[i] == RowOf(t.users[r[i].id])
    ensures forall k :: k in t.users ==> RowOf(t.users[k]) in r
    ensures |r| == |t.users|
    ensures forall i, j :: 0 <= i < j < |r| ==> r[i].created >= r[j].created
  {
    var rows := UsersNewestFirst(t);
    var r := Project(rows, RowOf);
    assert |r| == |rows|;
    forall i | 0 <= i < |r| ensures r[i].id in t.users && r[i] == RowOf(t.users[r[i].id]) {
      assert rows[i] in rows;
    }
    assert forall k :: k in t.users ==> RowOf(t.users[k]) in r by {
      forall k | k in t.users ensures RowOf(t.users[k]) in r {
        ProjectHas(rows, RowOf, t.users[k]);
      }
    }
    r
  }

  /** The caller's row after the update: only `full_name` and `phone` can
      change, each kept when its field is absent. */
  function EditProfile(u: User, fullName: Option<string>, phone: Option<string>): User {
    u.(fullName := Coalesce(fullName, u.fullName), phone := Coalesce(phone, u.phone))
  }

  /** `PUT /api/users/profile`. The UPDATE touches at most the caller's own
      row; when that row is gone the answer is still a success, with no data. */
  function UpdateProfileEffect(t: Tables, actor: Actor, fullName: Option<string>, phone: Option<string>)
    : (e: Effect<Option<Profile>>)
    requires t.Valid()
    ensures e.tables.Valid()
    ensures e.response.Ok?
    ensures e.response.value.None? <==> actor.id !in t.users
    ensures actor.id !in t.users ==> e.tables == t
    ensures actor.id in t.users ==> actor.id in e.tables.users
    ensures actor.id in t.users ==>
              var was := t.users[actor.id];
              var u := e.tables.users[actor.id];
              && e.tables == t.(users := t.users[actor.id := u])
              && (fullName.Some? ==> u.fullName == fullName.value)
              && (fullName.None? ==> u.fullName == was.fullName)
              && (phone.Some? ==> u.phone == phone.value)
              && (phone.None? ==> u.phone == was.phone)
              && u.(fullName := was.fullName, phone := was.phone) == was
              && e.response.value == Some(ProfileOf(u))
  {
    if actor.id !in t.users then Effect(Ok(None), t)
    else
      var u := EditProfile(t.users[actor.id], fullName, phone);
      Effect(Ok(Some(ProfileOf(u))), t.(users := t.users[actor.id := u]))
  }

  method UpdateProfile(db: Database, actor: Actor, fullName: Option<string>, phone: Option<string>)
    returns (r: Outcome<Option<Profile>>)
    requires db.Valid()
    modifies db
    ensures db.Valid()
    ensures Effect(r, db.State()) == UpdateProfileEffect(old(db.State()), actor, fullName, phone)
  {
    if actor.id !in db.users {
      return Ok(None);
    }
    var u := EditProfile(db.users[actor.id], fullName, phone);
    db.users := db.users[actor.id := u];
    r := Ok(Some(ProfileOf(u)));
  }

  /** Sending the same profile update twice leaves the database as once. */
  lemma UpdateProfileIdempotent(t: Tables, actor: Actor, fullName: Option<string>, phone: Option<string>)
    requires t.Valid()
    ensures var once := UpdateProfileEffect(t, actor, fullName, phone);
            UpdateProfileEffect(once.tables, actor, fullName, phone) == once
  {
  }

  /** A profile update never changes anyone's role, username, email or
      password, and never touches another user. */
  lemma UpdateProfileKeepsCredentials(t: Tables, actor: Actor, fullName: Option<string>, phone: Option<string>, k: Id)
    requires t.Valid() && k in t.users
    ensures var e := UpdateProfileEffect(t, actor, fullName, phone);
            && k in e.tables.users
            && e.tables.users[k].role == t.users[k].role
            && e.tables.users[k].username == t.users[k].username
            && e.tables.users[k].email == t.users[k].email
            && e.tables.users[k].password == t.users[k].password
            && (k != actor.id ==> e.tables.users[k] == t.users[k])
  {
  }
}
