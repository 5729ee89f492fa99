/** The application's database as one object holding its three tables, with
    one method per request handler of app.py that changes it. The acting
    user (flask_login's `current_user`) is passed in; "today" and the parsed
    form date are inputs. */
module Store {
  import opened Text
  import opened Records
  import opened Attendance
  import opened Notification

  // -----------------------------------------------------------------------
  // Table invariants

  predicate UniqueNames(users: seq<User>)
  {
    forall i, j :: 0 <= i < j < |users| ==> users[i].name != users[j].name
  }

  /** Row ids are positive and grow with table order, as SQLite hands out
      `max(rowid) + 1`. */
  predicate UserIdsIncrease(users: seq<User>)
  {
    && (forall i :: 0 <= i < |users| ==> 0 < users[i].id)
    && (forall i, j :: 0 <= i < j < |users| ==> users[i].id < users[j].id)
  }

  predicate SessionIdsIncrease(rows: seq<Session>)
  {
    && (forall i :: 0 <= i < |rows| ==> 0 < rows[i].id)
    && (forall i, j :: 0 <= i < j < |rows| ==> rows[i].id < rows[j].id)
  }

  /** Every attendee list names well-formed users, each at most once. */
  predicate AttendanceSound(rows: seq<Session>)
  {
    forall i :: 0 <= i < |rows| ==>
      WellFormedList(Parse(rows[i].attendees)) && NoDup(Parse(rows[i].attendees))
  }

  // -----------------------------------------------------------------------
  // Lookups

  /** `User.query.filter_by(name=name).first()`. */
  function FindUser(users: seq<User>, name: string): (r: Option<User>)
    ensures r.None? <==> forall i :: 0 <= i < |users| ==> users[i].name != name
    ensures r.Some? ==> r.value in users && r.value.name == name
    ensures r.Some? ==>
      exists i :: 0 <= i < |users| && users[i] == r.value && (forall j :: 0 <= j < i ==> users[j].name != name)
  {
    if |users| == 0 then None
    else if users[0].name == name then Some(users[0])
    else
      var r := FindUser(users[1..], name);
      assert r.Some? ==> r.value in users[1..];
      if r.Some? then
        var i :| 0 <= i < |users[1..]| && users[1..][i] == r.value
          && forall j :: 0 <= j < i ==> users[1..][j].name != name;
        assert users[i + 1] == r.value;
        assert forall j :: 0 <= j < i + 1 ==> users[j].name != name by {
          forall j | 0 <= j < i + 1 ensures users[j].name != name {
            if j > 0 {
              assert users[j] == users[1..][j - 1];
            }
          }
        }
        r
      else r
  }

  /** `db.session.get(Session, id)`: the position of the row with that id. */
  function FindSession(rows: seq<Session>, id: nat): (r: Option<nat>)
    ensures r.None? <==> forall i :: 0 <= i < |rows| ==> rows[i].id != id
    ensures r.Some? ==> r.value < |rows| && rows[r.value].id == id
  {
    if |rows| == 0 then None
    else if rows[0].id == id then Some(0)
    else
      match FindSession(rows[1..], id)
      case None => None
      case Some(k) => Some(k + 1)
  }

  /** The id SQLite gives the next user: one more than the largest. */
  function NextUserId(users: seq<User>): (r: nat)
    ensures r > 0
    ensures UserIdsIncrease(users) ==> forall i :: 0 <= i < |users| ==> users[i].id < r
  {
    if |users| == 0 then 1 else users[|users| - 1].id + 1
  }

  /** The id SQLite gives the next session: one more than the largest. */
  function NextSessionId(rows: seq<Session>): (r: nat)
    ensures r > 0
    ensures SessionIdsIncrease(rows) ==> forall i :: 0 <= i < |rows| ==> rows[i].id < r
  {
    if |rows| == 0 then 1 else rows[|rows| - 1].id + 1
  }

  /** The session table after deleting the row with that id, if there is one. */
  function WithoutSession(rows: seq<Session>, id: nat): (r: seq<Session>)
    ensures |r| == if FindSession(rows, id).Some? then |rows| - 1 else |rows|
    ensures forall s :: s in r ==> s in rows
  {
    match FindSession(rows, id)
    case None => rows
    case Some(k) => Cut(rows, k)
  }

  /** Deleting removes exactly the row with that id and keeps the others in
      order; a missing id changes nothing. */
  lemma WithoutSessionRemovesExactly(rows: seq<Session>, id: nat)
    requires SessionIdsIncrease(rows)
    ensures FindSession(rows, id).None? ==> WithoutSession(rows, id) == rows
    ensures forall s :: s in WithoutSession(rows, id) <==> s in rows && s.id != id
    ensures SessionIdsIncrease(WithoutSession(rows, id))
  {
    match FindSession(rows, id)
    case None =>
    case Some(k) =>
      CutMembers(rows, k);
      CutKeepsIds(rows, k);
  }

  lemma CutMembers(rows: seq<Session>, k: nat)
    requires k < |rows| && SessionIdsIncrease(rows)
    ensures forall s :: s in Cut(rows, k) <==> s in rows && s.id != rows[k].id
  {
    var r := Cut(rows, k);
    forall s ensures s in r <==> s in rows && s.id != rows[k].id {
      if s in rows && s.id != rows[k].id {
        var i :| 0 <= i < |rows| && rows[i] == s;
        if i < k {
          assert r[i] == s;
        } else {
          assert i > k && r[i - 1] == s;
        }
      }
      if s in r {
        var i :| 0 <= i < |r| && r[i] == s;
        if i < k {
          assert rows[i] == s;
        } else {
          assert rows[i + 1] == s;
        }
      }
    }
  }

  lemma CutKeepsIds(rows: seq<Session>, k: nat)
    requires k < |rows| && SessionIdsIncrease(rows)
    ensures SessionIdsIncrease(Cut(rows, k))
  {
    var r := Cut(rows, k);
    forall i, j | 0 <= i < j < |r| ensures 0 < r[i].id < r[j].id {
      if j < k {
        assert r[i] == rows[i] && r[j] == rows[j];
      } else if i < k {
        assert r[i] == rows[i] && r[j] == rows[j + 1];
      } else {
        assert r[i] == rows[i + 1] && r[j] == rows[j + 1];
      }
    }
  }

  /** A new user with an unused name and the next id keeps the user table's
      invariants. */
  lemma AppendUser(users: seq<User>, u: User)
    requires UniqueNames(users) && UserIdsIncrease(users)
    requires FindUser(users, u.name).None? && u.id == NextUserId(users)
    ensures UniqueNames(users + [u]) && UserIdsIncrease(users + [u])
  {
    var r := users + [u];
    forall i, j | 0 <= i < j < |r| ensures r[i].name != r[j].name && 0 < r[i].id < r[j].id {
      assert r[i] == users[i];
      if j < |users| {
        assert r[j] == users[j];
      } else {
        assert r[j] == u && users[i].id < u.id && users[i].name != u.name;
      }
    }
  }

  /** A new session with the next id keeps the ids increasing. */
  lemma AppendSession(rows: seq<Session>, s: Session)
    requires SessionIdsIncrease(rows) && s.id == NextSessionId(rows)
    ensures SessionIdsIncrease(rows + [s])
  {
    var r := rows + [s];
    forall i, j | 0 <= i < j < |r| ensures 0 < r[i].id < r[j].id {
      assert r[i] == rows[i];
      if j < |rows| {
        assert r[j] == rows[j];
      } else {
        assert r[j] == s && rows[i].id < s.id;
      }
    }
  }

  /** `login`: the first user with that name, if the password matches its
      stored credential (`check` stands for werkzeug's hash check);
      `None` is the 401 "Invalid credentials" response. */
  function Login(users: seq<User>, name: string, password: string,
                 check: (string, string) -> bool): (r: Option<User>)
    ensures r.Some? ==> r.value in users && r.value.name == name && check(r.value.credential, password)
  {
    match FindUser(users, name)
    case None => None
    case Some(u) => if check(u.credential, password) then Some(u) else None
  }

  /** The answer to a login POST: a redirect (`Ok`) when `Login` finds the
      user, otherwise "Invalid credentials" with 401. */
  function LoginStatus(users: seq<User>, name: string, password: string,
                       check: (string, string) -> bool): (r: Status)
    ensures r == Ok || r == Invalid401
    ensures r == Ok ==> exists i :: 0 <= i < |users| && users[i].name == name && check(users[i].credential, password)
  {
    match Login(users, name, password, check)
    case Some(_) => Ok
    case None => Invalid401
  }

  /** With unique names, login succeeds exactly for a stored user of that
      name whose credential matches. */
  lemma LoginSucceedsIff(users: seq<User>, name: string, password: string,
                         check: (string, string) -> bool)
    requires UniqueNames(users)
    ensures Login(users, name, password, check).Some? <==>
      exists i :: 0 <= i < |users| && users[i].name == name && check(users[i].credential, password)
  {
    var f := FindUser(users, name);
    if f.Some? {
      var k :| 0 <= k < |users| && users[k] == f.value;
      assert forall i :: 0 <= i < |users| && users[i].name == name ==> i == k;
    }
  }

  // -----------------------------------------------------------------------
  // The store

  class Store {
    var users: seq<User>
    var sessions: seq<Session>
    var mail: Option<MailRow>

    ghost predicate Valid()
      reads this
    {
      UniqueNames(users) && UserIdsIncrease(users) && SessionIdsIncrease(sessions)
    }

    /** `db.create_all()` on a fresh database. */
    constructor ()
      ensures Valid()
      ensures users == [] && sessions == [] && mail == None
    {
      users, sessions, mail := [], [], None;
    }

    /** `register`: a taken name gets 400 and nothing changes; otherwise one
        user is appended, admin exactly when the table was empty. */
    method Register(name: string, email: string, credential: string) returns (status: Status)
      requires Valid()
      modifies this
      ensures Valid()
      ensures FindUser(old(users), name).Some? ==> status == Exists400 && users == old(users)
      ensures FindUser(old(users), name).None? ==>
        && status == Ok
        && users == old(users) + [User(NextUserId(old(users)), name, email, credential, |old(users)| == 0)]
      ensures sessions == old(sessions) && mail == old(mail)
    {
      if FindUser(users, name).None? {
        var isAdmin := |users| == 0;
        var created := User(NextUserId(users), name, email, credential, isAdmin);
        AppendUser(users, created);
        users := users + [created];
        status := Ok;
      } else {
        status := Exists400;
      }
    }

    /** `add`: appends a session whose creator and attendee list are the
        acting user's name, then builds the notification from the stored
        mail configuration and the users; the answer is always a redirect. */
    method Add(actor: User, date: Date, time: string, name: string)
      returns (status: Status, id: nat, outbox: Option<seq<Message>>)
      requires Valid()
      modifies this
      ensures Valid()
      ensures status == Ok
      ensures id == NextSessionId(old(sessions))
      ensures sessions == old(sessions) + [Session(id, date, time, name, Some(actor.name), actor.name)]
      ensures outbox == Outbox(mail, users, sessions[|sessions| - 1])
      ensures AttendanceSound(old(sessions)) && WellFormedName(actor.name) ==> AttendanceSound(sessions)
      ensures users == old(users) && mail == old(mail)
    {
      var creator := actor.name;
      id := NextSessionId(sessions);
      var row := Session(id, date, time, name, Some(creator), creator);
      AppendSession(sessions, row);
      sessions := sessions + [row];
      outbox := Outbox(mail, users, row);
      status := Ok;
      if AttendanceSound(old(sessions)) && WellFormedName(creator) {
        CreatorSeed(creator);
      }
    }

    /** `delete_session`: removes the row with that id if there is one;
        either way the answer is a redirect. */
    method DeleteSession(id: nat) returns (status: Status)
      requires Valid()
      modifies this
      ensures Valid()
      ensures status == Ok
      ensures sessions == WithoutSession(old(sessions), id)
      ensures AttendanceSound(old(sessions)) ==> AttendanceSound(sessions)
      ensures users == old(users) && mail == old(mail)
    {
      WithoutSessionRemovesExactly(sessions, id);
      var found := FindSession(sessions, id);
      if found.Some? {
        sessions := Cut(sessions, found.value);
      }
      status := Ok;
      if AttendanceSound(old(sessions)) {
        forall i | 0 <= i < |sessions|
          ensures WellFormedList(Parse(sessions[i].attendees)) && NoDup(Parse(sessions[i].attendees))
        {
          assert sessions[i] in old(sessions);
        }
      }
    }

    /** `attend`: parses the attendee column, appends the acting user's name
        if absent or removes its first occurrence, and stores the join. The
        source dereferences a missing session, so the id must exist. */
    method Attend(id: nat, actor: User) returns (status: Status)
      requires Valid()
      requires FindSession(sessions, id).Some?
      modifies this
      ensures Valid()
      ensures status == Ok
      ensures var k := FindSession(old(sessions), id).value;
        && |sessions| == |old(sessions)|
        && sessions[k] == old(sessions)[k].(attendees := Some(ToggleText(old(sessions)[k].attendees, actor.name)))
        && forall i :: 0 <= i < |sessions| && i != k ==> sessions[i] == old(sessions)[i]
      ensures AttendanceSound(old(sessions)) && WellFormedName(actor.name) ==> AttendanceSound(sessions)
      ensures users == old(users) && mail == old(mail)
    {
      var k := FindSession(sessions, id).value;
      var row := sessions[k];
      var names := Parse(row.attendees);
      if actor.name !in names {
        names := names + [actor.name];
      } else {
        names := RemoveFirst(names, actor.name);
      }
      sessions := sessions[k := row.(attendees := Some(Join(names, Comma)))];
      assert forall i :: 0 <= i < |sessions| ==> sessions[i].id == old(sessions)[i].id;
      status := Ok;
      if AttendanceSound(old(sessions)) && WellFormedName(actor.name) {
        AttendStep(row.attendees, actor.name);
      }
    }

    /** `config`: a non-admin gets 403 and nothing changes. An admin's GET
        shows the stored settings, if any; an admin's POST stores the four
        given fields, inserting the row if there is none and otherwise
        overwriting every field of the existing row, and answers with a
        fixed confirmation text instead of the settings. */
    method Config(actor: User, form: Option<MailSettings>)
      returns (status: Status, shown: Option<MailSettings>)
      requires Valid()
      modifies this
      ensures Valid()
      ensures !actor.isAdmin ==> status == Denied403 && shown == None && mail == old(mail)
      ensures actor.isAdmin && form.None? ==>
        && status == Ok && mail == old(mail)
        && shown == (if old(mail).Some? then Some(old(mail).value.settings) else None)
      ensures actor.isAdmin && form.Some? && old(mail).None? ==>
        status == Ok && mail == Some(MailRow(1, form.value)) && shown == None
      ensures actor.isAdmin && form.Some? && old(mail).Some? ==>
        status == Ok && mail == Some(old(mail).value.(settings := form.value)) && shown == None
      ensures users == old(users) && sessions == old(sessions)
    {
      if !actor.isAdmin {
        return Denied403, None;
      }
      match form
      case None =>
        status := Ok;
        shown := if mail.Some? then Some(mail.value.settings) else None;
      case Some(settings) =>
        if mail.None? {
          mail := Some(MailRow(1, settings));
        } else {
          var row := mail.value;
          row := row.(settings := row.settings.(server := settings.server));
          row := row.(settings := row.settings.(port := settings.port));
          row := row.(settings := row.settings.(username := settings.username));
          row := row.(settings := row.settings.(password := settings.password));
          mail := Some(row);
        }
        status, shown := Ok, None;
    }
  }

  // -----------------------------------------------------------------------
  // Scenarios on a fresh store

  /** The first registration is admin, the second is not, and a repeated
      name is refused. */
  method RegistrationOrder() returns (first: Status, second: Status, repeated: Status,
                                      firstAdmin: bool, secondAdmin: bool, count: nat)
    ensures first == Ok && second == Ok && repeated == Exists400
    ensures firstAdmin && !secondAdmin && count == 2
  {
    var db := new Store();
    first := db.Register("Alice", "alice@example.org", "h1");
    second := db.Register("Bob", "bob@example.org", "h2");
    repeated := db.Register("Alice", "other@example.org", "h3");
    firstAdmin, secondAdmin, count := db.users[0].isAdmin, db.users[1].isAdmin, |db.users|;
  }

  /** Only the admin may change the mail settings; a later non-admin request
      is refused and leaves them as the admin stored them. */
  method ConfigGuard(admin: User, other: User, settings: MailSettings, attempt: MailSettings)
    returns (byAdmin: Status, byOther: Status, stored: Option<MailRow>)
    requires admin.isAdmin && !other.isAdmin
    ensures byAdmin == Ok && byOther == Denied403
    ensures stored == Some(MailRow(1, settings))
  {
    var db := new Store();
    var shown;
    byAdmin, shown := db.Config(admin, Some(settings));
    byOther, shown := db.Config(other, Some(attempt));
    stored := db.mail;
  }

  /** A new session lists its creator; a second user's attend appends their
      name after a comma; the creator's attend then leaves only the second
      user. */
  method CreateJoinLeave(creator: User, guest: User, date: Date, time: string, name: string)
    returns (seeded: Option<string>, joined: Option<string>, left: Option<string>)
    requires WellFormedName(creator.name) && WellFormedName(guest.name)
    requires creator.name != guest.name
    ensures seeded == Some(creator.name)
    ensures joined == Some(creator.name + [Comma] + guest.name)
    ensures left == Some(guest.name)
  {
    var db := new Store();
    var created, id, outbox := db.Add(creator, date, time, name);
    assert db.sessions == [db.sessions[0]];
    seeded := db.sessions[0].attendees;
    CreatorSeed(creator.name);
    var status := db.Attend(id, guest);
    joined := db.sessions[0].attendees;
    assert Toggle([creator.name], guest.name) == [creator.name, guest.name];
    assert Join([creator.name, guest.name], Comma) == creator.name + [Comma] + guest.name by {
      assert [creator.name, guest.name][1..] == [guest.name];
    }
    status := db.Attend(id, creator);
    left := db.sessions[0].attendees;
    ParsePair(creator.name, guest.name);
    assert RemoveFirst([creator.name, guest.name], creator.name) == [guest.name];
  }
}
