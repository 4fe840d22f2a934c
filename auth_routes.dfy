/** The router of routes/auth.js over the users collection of models/user.js,
    whose only unique index is on username. `/signup` checks the username alone
    and stores the body as it came; `/reset-password` overwrites the password of
    the first user with the given email. */
module AuthRoutes {
  import opened Records

  /** The HTTP status a handler answers with, and the users collection afterwards. */
  datatype Reply = Reply(status: int, users: seq<User>)

  /** Which awaited store calls resolve: User.findOne and the following save(). */
  datatype Effects = Effects(findOk: bool, saveOk: bool)

  /** The unique index on username (models/user.js:8). */
  predicate UniqueUsernames(users: seq<User>) {
    forall i, j :: 0 <= i < j < |users| ==> users[i].username != users[j].username
  }

  predicate UsernameTaken(users: seq<User>, username: Field) {
    exists i :: 0 <= i < |users| && users[i].username == username
  }

  /** POST /signup (routes/auth.js:6-47). No value is checked for presence and the
      email is not checked at all. */
  function SignupStep(users: seq<User>, b: SignupBody, fx: Effects): (r: Reply)
    ensures r.status in {201, 409, 500}
    ensures r.status == 409 <==> fx.findOk && UsernameTaken(users, b.username)
    ensures r.status == 201 <==> fx.findOk && fx.saveOk && !UsernameTaken(users, b.username)
    ensures r.users == if r.status == 201 then users + [NewUser(b, None)] else users
    ensures UniqueUsernames(users) ==> UniqueUsernames(r.users)
  {
    if !fx.findOk then Reply(500, users)
    else if FindUser(users, ByUsername(b.username)).Some? then Reply(409, users)
    else if !fx.saveOk then Reply(500, users)
    else Reply(201, users + [NewUser(b, None)])
  }

  /** POST /reset-password (routes/auth.js:50-77). */
  function ResetPasswordStep(users: seq<User>, email: Field, newPassword: Field, fx: Effects): (r: Reply)
    ensures r.status in {200, 400, 404, 500}
    ensures r.status == 400 <==> Missing(email) || Missing(newPassword)
    ensures r.status == 404 <==>
      !Missing(email) && !Missing(newPassword) && fx.findOk &&
      forall i :: 0 <= i < |users| ==> users[i].email != email
    ensures r.status == 200 <==>
      !Missing(email) && !Missing(newPassword) && fx.findOk && fx.saveOk &&
      exists i :: 0 <= i < |users| && users[i].email == email
    ensures r.status != 200 ==> r.users == users
    // only the first user with that email changes, and only its password
    ensures r.status == 200 ==>
      exists i :: (0 <= i < |users| && users[i].email == email &&
        (forall j :: 0 <= j < i ==> users[j].email != email) &&
        r.users == users[i := users[i].(password := newPassword)])
    ensures UniqueUsernames(users) ==> UniqueUsernames(r.users)
  {
    if Missing(email) || Missing(newPassword) then Reply(400, users)
    else if !fx.findOk then Reply(500, users)
    else
      match FindUser(users, ByEmail(email))
      case None => Reply(404, users)
      case Some(i) =>
        if !fx.saveOk then Reply(500, users)
        else Reply(200, users[i := users[i].(password := newPassword)])
  }

  /** Signup lets a second account reuse an email already on file. */
  lemma SignupAcceptsDuplicateEmail(users: seq<User>, b: SignupBody, fx: Effects)
    requires fx.findOk && fx.saveOk && !UsernameTaken(users, b.username)
    requires exists i :: 0 <= i < |users| && users[i].email == b.email
    ensures var r := SignupStep(users, b, fx);
      r.status == 201 &&
      exists i :: 0 <= i < |users| && r.users[i].email == r.users[|users|].email
  {
    var i :| 0 <= i < |users| && users[i].email == b.email;
    var r := SignupStep(users, b, fx);
    assert r.users[i] == users[i];
  }

  /** Signup stores a body with every value but the username absent. */
  lemma SignupAcceptsMissingFields(users: seq<User>, username: Field, fx: Effects)
    requires fx.findOk && fx.saveOk && !UsernameTaken(users, username)
    ensures var b := SignupBody(Absent, Absent, Absent, username, Absent, Absent, Absent, Absent, Absent);
      SignupStep(users, b, fx).status == 201 &&
      SignupStep(users, b, fx).users[|users|].password == Absent
  {
  }

  /** A reset followed by a second reset of the same email changes the same user
      again: the one found first. */
  lemma ResetTargetsFirstMatch(users: seq<User>, email: Field, p1: Field, p2: Field, fx: Effects)
    requires fx.findOk && fx.saveOk && !Missing(email) && !Missing(p1) && !Missing(p2)
    requires exists i :: 0 <= i < |users| && users[i].email == email
    ensures var once := ResetPasswordStep(users, email, p1, fx);
      once.status == 200 &&
      ResetPasswordStep(once.users, email, p2, fx).users == ResetPasswordStep(users, email, p2, fx).users
  {
    var once := ResetPasswordStep(users, email, p1, fx);
    var i :| 0 <= i < |users| && users[i].email == email &&
      (forall j :: 0 <= j < i ==> users[j].email != email) &&
      once.users == users[i := users[i].(password := p1)];
    assert once.users[i].email == email;
    var twice := ResetPasswordStep(once.users, email, p2, fx);
    var k :| 0 <= k < |once.users| && once.users[k].email == email &&
      (forall j :: 0 <= j < k ==> once.users[j].email != email) &&
      twice.users == once.users[k := once.users[k].(password := p2)];
    assert k == i;
    var direct := ResetPasswordStep(users, email, p2, fx);
    var m :| 0 <= m < |users| && users[m].email == email &&
      (forall j :: 0 <= j < m ==> users[j].email != email) &&
      direct.users == users[m := users[m].(password := p2)];
    assert m == i;
  }

  /** The routes/auth.js router: the users collection, updated in place. */
  class Router {
    var users: seq<User>

    ghost predicate Valid()
      reads this
    {
      UniqueUsernames(users)
    }

    constructor ()
      ensures Valid() && users == []
    {
      users := [];
    }

    method Signup(b: SignupBody, fx: Effects) returns (status: int)
      requires Valid()
      modifies this
      ensures Valid()
      ensures Reply(status, users) == SignupStep(old(users), b, fx)
    {
      if !fx.findOk {
        return 500;
      }
      var existing := FindUser(users, ByUsername(b.username));
      if existing.Some? {
        return 409;
      }
      if !fx.saveOk {
        return 500;
      }
      users := users + [NewUser(b, None)];
      return 201;
    }

    method ResetPassword(email: Field, newPassword: Field, fx: Effects) returns (status: int)
      requires Valid()
      modifies this
      ensures Valid()
      ensures Reply(status, users) == ResetPasswordStep(old(users), email, newPassword, fx)
    {
      if Missing(email) || Missing(newPassword) {
        return 400;
      }
      if !fx.findOk {
        return 500;
      }
      var found := FindUser(users, ByEmail(email));
      if found.None? {
        return 404;
      }
      var i := found.value;
      var user := users[i].(password := newPassword);
      if !fx.saveOk {
        return 500;
      }
      users := users[i := user];
      return 200;
    }
  }
}
