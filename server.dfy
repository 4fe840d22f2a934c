/** The three handlers of server.js that change the stores: `/api/signup`,
    `/api/send-code` and `/api/verify-code`, plus the store's own TTL eviction of
    OTP records. Each handler is a step function over the two collections (the
    specification) and a method of `Backend` that performs the same store calls one
    by one, with the same early returns. The outcome of every store call and of
    the mail transport is an input: `true` means the awaited promise resolved. */
module Server {
  import opened Records
  import opened OtpCode

  /** The users and OTP collections, and the next _id the OTP store hands out. */
  datatype Db = Db(users: seq<User>, codes: seq<OtpRecord>, nextId: nat)

  /** The HTTP status a handler answers with, and the collections afterwards. */
  datatype Reply = Reply(status: int, db: Db)

  /** Which awaited calls of `/api/signup` resolve: User.findOne, user.save,
      OTP.create and transporter.sendMail. */
  datatype SignupEffects = SignupEffects(findOk: bool, userSaveOk: bool, codeCreateOk: bool, mailOk: bool)

  /** Which awaited calls of `/api/send-code` resolve: OTP.deleteMany, OTP.create
      and transporter.sendMail. */
  datatype ResendEffects = ResendEffects(deleteOk: bool, createOk: bool, mailOk: bool)

  /** Which awaited calls of `/api/verify-code` resolve: OTP.findOne and OTP.deleteOne. */
  datatype VerifyEffects = VerifyEffects(findOk: bool, deleteOk: bool)

  /** The unique indexes of the users schema (username and email) hold, and OTP
      record ids are handed out in ascending order below nextId. */
  predicate WellFormed(db: Db) {
    (forall i, j :: 0 <= i < j < |db.users| ==>
       db.users[i].email != db.users[j].email && db.users[i].username != db.users[j].username) &&
    IdsAscending(db.codes) &&
    (forall i :: 0 <= i < |db.codes| ==> db.codes[i].id < db.nextId)
  }

  /** One of the nine signup values is falsy. */
  predicate AnyMissing(b: SignupBody) {
    Missing(b.firstName) || Missing(b.lastName) || Missing(b.fullName) ||
    Missing(b.username) || Missing(b.email) || Missing(b.password) ||
    Missing(b.dob) || Missing(b.gender) || Missing(b.region)
  }

  /** Some stored user has this email or this username. */
  predicate Taken(users: seq<User>, email: Field, username: Field) {
    exists i :: 0 <= i < |users| && (users[i].email == email || users[i].username == username)
  }

  /** The record `OTP.create({ email, code })` adds at time now. */
  function Issued(db: Db, email: string, code: string, now: int): OtpRecord {
    OtpRecord(db.nextId, email, code, now)
  }

  /** `OTP.create`: append a record under a fresh id. The users are untouched,
      every earlier record stays where it was, and the new record carries the
      pair, the time and the id the counter held. */
  function Create(db: Db, email: string, code: string, now: int): (r: Db)
    ensures r.users == db.users && r.nextId > db.nextId
    ensures |r.codes| == |db.codes| + 1 && r.codes[..|db.codes|] == db.codes
    ensures IsMatch(r.codes[|db.codes|], email, code) && r.codes[|db.codes|].createdAt == now
    ensures r.codes[|db.codes|].id == db.nextId
  {
    Db(db.users, db.codes + [Issued(db, email, code, now)], db.nextId + 1)
  }

  /** WellFormed survives OTP.create. */
  lemma CreateKeepsWellFormed(db: Db, email: string, code: string, now: int)
    requires WellFormed(db)
    ensures WellFormed(Create(db, email, code, now))
  {
    var r := Create(db, email, code, now);
    forall y | y in db.codes
      ensures y.id < db.nextId
    {
      var k :| 0 <= k < |db.codes| && db.codes[k] == y;
    }
    AppendAscending(db.codes, Issued(db, email, code, now));
    assert r.codes[|db.codes|].id == db.nextId;
  }

  /** Every record of c comes from source, whose ids all lie below bound. */
  lemma IdsBelowFrom(c: seq<OtpRecord>, source: seq<OtpRecord>, bound: nat)
    requires forall x {:trigger x in c} :: x in c ==> x in source
    requires forall i :: 0 <= i < |source| ==> source[i].id < bound
    ensures forall i :: 0 <= i < |c| ==> c[i].id < bound
  {
    forall i | 0 <= i < |c|
      ensures c[i].id < bound
    {
      assert c[i] in c;
      var k :| 0 <= k < |source| && source[k] == c[i];
    }
  }

  /** WellFormed survives deleteMany, deleteOne and the TTL sweep: each keeps a
      subsequence of the records. */
  lemma FiltersKeepWellFormed(db: Db, email: string, id: nat, now: int)
    requires WellFormed(db)
    ensures WellFormed(Db(db.users, WithoutEmail(db.codes, email), db.nextId))
    ensures WellFormed(Db(db.users, WithoutId(db.codes, id), db.nextId))
    ensures WellFormed(Db(db.users, Unexpired(db.codes, now), db.nextId))
  {
    FiltersKeepIdsAscending(db.codes, email, id, now);
    IdsBelowFrom(WithoutEmail(db.codes, email), db.codes, db.nextId);
    IdsBelowFrom(WithoutId(db.codes, id), db.codes, db.nextId);
    IdsBelowFrom(Unexpired(db.codes, now), db.codes, db.nextId);
  }

  /** Signup got as far as `user.save()` succeeding. */
  predicate UserSaved(db: Db, b: SignupBody, fx: SignupEffects) {
    !AnyMissing(b) && fx.findOk && !Taken(db.users, b.email, b.username) && fx.userSaveOk
  }

  /** POST /api/signup (server.js:64-109). */
  function SignupStep(db: Db, b: SignupBody, n: int, now: int, fx: SignupEffects): (r: Reply)
    requires CODE_LOW <= n <= CODE_HIGH
    ensures r.status in {201, 400, 409, 500}
    ensures r.status == 400 <==> AnyMissing(b)
    ensures r.status == 409 <==> !AnyMissing(b) && fx.findOk && Taken(db.users, b.email, b.username)
    ensures r.status == 201 <==> UserSaved(db, b, fx) && fx.codeCreateOk && fx.mailOk
    ensures r.status in {400, 409} ==> r.db == db
    // the user stays once saved, whatever happens to the code and the mail
    ensures r.db.users == if UserSaved(db, b, fx) then db.users + [NewUser(b, Some(now))] else db.users
    // one new record, and earlier records of the same email are kept
    ensures r.db.codes == if UserSaved(db, b, fx) && fx.codeCreateOk
                          then db.codes + [Issued(db, b.email.text, GenerateOtp(n), now)]
                          else db.codes
    ensures WellFormed(db) ==> WellFormed(r.db)
  {
    if AnyMissing(b) then Reply(400, db)
    else if !fx.findOk then Reply(500, db)
    else if FindUser(db.users, ByEmailOrUsername(b.email, b.username)).Some? then Reply(409, db)
    else if !fx.userSaveOk then Reply(500, db)
    else
      var saved := Db(db.users + [NewUser(b, Some(now))], db.codes, db.nextId);
      assert WellFormed(db) ==> WellFormed(saved);
      if !fx.codeCreateOk then Reply(500, saved)
      else
        var issued := Create(saved, b.email.text, GenerateOtp(n), now);
        assert WellFormed(saved) ==> WellFormed(issued) by {
          if WellFormed(saved) { CreateKeepsWellFormed(saved, b.email.text, GenerateOtp(n), now); }
        }
        if !fx.mailOk then Reply(500, issued) else Reply(201, issued)
  }

  /** POST /api/send-code (server.js:112-134). */
  function SendCodeStep(db: Db, email: Field, n: int, now: int, fx: ResendEffects): (r: Reply)
    requires CODE_LOW <= n <= CODE_HIGH
    ensures r.status in {200, 400, 500}
    ensures r.status == 400 <==> Missing(email)
    ensures r.status == 200 <==> !Missing(email) && fx.deleteOk && fx.createOk && fx.mailOk
    ensures r.db.users == db.users
    ensures Missing(email) || !fx.deleteOk ==> r.db == db
    // after the bulk delete the email holds the new record alone, or nothing
    ensures !Missing(email) && fx.deleteOk ==>
      WithEmail(r.db.codes, email.text) == if fx.createOk then [Issued(db, email.text, GenerateOtp(n), now)] else []
    // records of other emails are untouched, in every case
    ensures !Missing(email) ==> WithoutEmail(r.db.codes, email.text) == WithoutEmail(db.codes, email.text)
    ensures WellFormed(db) ==> WellFormed(r.db)
  {
    if Missing(email) then Reply(400, db)
    else if !fx.deleteOk then Reply(500, db)
    else
      var e := email.text;
      var cleared := Db(db.users, WithoutEmail(db.codes, e), db.nextId);
      DeleteManyClearsEmail(db.codes, e);
      assert WellFormed(db) ==> WellFormed(cleared) by {
        if WellFormed(db) { FiltersKeepWellFormed(db, e, 0, now); }
      }
      if !fx.createOk then Reply(500, cleared)
      else
        var issued := Create(cleared, e, GenerateOtp(n), now);
        AppendSplitsByEmail(cleared.codes, Issued(cleared, e, GenerateOtp(n), now), e);
        assert WellFormed(cleared) ==> WellFormed(issued) by {
          if WellFormed(cleared) { CreateKeepsWellFormed(cleared, e, GenerateOtp(n), now); }
        }
        if !fx.mailOk then Reply(500, issued) else Reply(200, issued)
  }

  /** POST /api/verify-code (server.js:137-153). No clock is consulted: a record
      is valid for as long as the store keeps it. */
  function VerifyCodeStep(db: Db, email: Field, code: Field, fx: VerifyEffects): (r: Reply)
    ensures r.status in {200, 400, 500}
    ensures r.status == 400 <==>
      Missing(email) || Missing(code) || (fx.findOk && !HasCode(db.codes, email.text, code.text))
    ensures r.status == 200 <==>
      !Missing(email) && !Missing(code) && fx.findOk && fx.deleteOk && HasCode(db.codes, email.text, code.text)
    ensures r.db.users == db.users && r.db.nextId == db.nextId
    ensures r.status != 200 ==> r.db == db
    // success deletes, by its id, the record findOne returned: the first one
    // carrying both the email and the code
    ensures r.status == 200 ==>
      FindCode(db.codes, email.text, code.text).Some? &&
      r.db.codes == WithoutId(db.codes, db.codes[FindCode(db.codes, email.text, code.text).value].id)
    ensures WellFormed(db) ==> WellFormed(r.db)
  {
    if Missing(email) || Missing(code) then Reply(400, db)
    else if !fx.findOk then Reply(500, db)
    else
      match FindCode(db.codes, email.text, code.text)
      case None => Reply(400, db)
      case Some(i) =>
        if !fx.deleteOk then Reply(500, db)
        else
          var r := Reply(200, Db(db.users, WithoutId(db.codes, db.codes[i].id), db.nextId));
          assert WellFormed(db) ==> WellFormed(r.db) by {
            if WellFormed(db) { FiltersKeepWellFormed(db, "", db.codes[i].id, 0); }
          }
          r
  }

  /** The TTL monitor of the OTP collection running at time now: every record at
      least OTP_LIFETIME seconds old goes, every younger one stays (server.js:45). */
  function EvictStep(db: Db, now: int): (r: Db)
    ensures r.users == db.users && r.nextId == db.nextId
    ensures forall x :: x in r.codes ==> x in db.codes && !Expired(x, now)
    ensures forall x :: x in db.codes && !Expired(x, now) ==> x in r.codes
    ensures WellFormed(db) ==> WellFormed(r)
  {
    var r := Db(db.users, Unexpired(db.codes, now), db.nextId);
    assert WellFormed(db) ==> WellFormed(r) by {
      if WellFormed(db) { FiltersKeepWellFormed(db, "", 0, now); }
    }
    r
  }

  /** The server.js process: its two collections, updated in place by the handlers. */
  class Backend {
    var users: seq<User>
    var codes: seq<OtpRecord>
    var nextId: nat

    function State(): Db
      reads this
    {
      Db(users, codes, nextId)
    }

    ghost predicate Valid()
      reads this
    {
      WellFormed(State())
    }

    constructor ()
      ensures Valid() && State() == Db([], [], 0)
    {
      users, codes, nextId := [], [], 0;
    }

    /** `OTP.create({ email, code })`. */
    method CreateCode(email: string, code: string, now: int)
      requires Valid()
      modifies this
      ensures Valid()
      ensures State() == Create(old(State()), email, code, now)
    {
      CreateKeepsWellFormed(State(), email, code, now);
      codes := codes + [OtpRecord(nextId, email, code, now)];
      nextId := nextId + 1;
    }

    method Signup(b: SignupBody, n: int, now: int, fx: SignupEffects) returns (status: int)
      requires Valid() && CODE_LOW <= n <= CODE_HIGH
      modifies this
      ensures Valid()
      ensures Reply(status, State()) == SignupStep(old(State()), b, n, now, fx)
    {
      if AnyMissing(b) {
        return 400;
      }
      if !fx.findOk {
        return 500;
      }
      var existing := FindUser(users, ByEmailOrUsername(b.email, b.username));
      if existing.Some? {
        return 409;
      }
      if !fx.userSaveOk {
        return 500;
      }
      users := users + [NewUser(b, Some(now))];
      var code := GenerateOtp(n);
      if !fx.codeCreateOk {
        return 500;
      }
      CreateCode(b.email.text, code, now);
      if !fx.mailOk {
        return 500;
      }
      return 201;
    }

    method SendCode(email: Field, n: int, now: int, fx: ResendEffects) returns (status: int)
      requires Valid() && CODE_LOW <= n <= CODE_HIGH
      modifies this
      ensures Valid()
      ensures Reply(status, State()) == SendCodeStep(old(State()), email, n, now, fx)
    {
      if Missing(email) {
        return 400;
      }
      var code := GenerateOtp(n);
      if !fx.deleteOk {
        return 500;
      }
      FiltersKeepWellFormed(State(), email.text, 0, now);
      codes := WithoutEmail(codes, email.text);
      if !fx.createOk {
        return 500;
      }
      CreateCode(email.text, code, now);
      if !fx.mailOk {
        return 500;
      }
      return 200;
    }

    method VerifyCode(email: Field, code: Field, fx: VerifyEffects) returns (status: int)
      requires Valid()
      modifies this
      ensures Valid()
      ensures Reply(status, State()) == VerifyCodeStep(old(State()), email, code, fx)
    {
      if Missing(email) || Missing(code) {
        return 400;
      }
      if !fx.findOk {
        return 500;
      }
      var entry := FindCode(codes, email.text, code.text);
      if entry.None? {
        return 400;
      }
      if !fx.deleteOk {
        return 500;
      }
      FiltersKeepWellFormed(State(), "", codes[entry.value].id, 0);
      codes := WithoutId(codes, codes[entry.value].id);
      return 200;
    }

    /** The store's passive expiry, an environment step between requests. */
    method Evict(now: int)
      requires Valid()
      modifies this
      ensures Valid()
      ensures State() == EvictStep(old(State()), now)
    {
      FiltersKeepWellFormed(State(), "", 0, now);
      codes := Unexpired(codes, now);
    }
  }
}
