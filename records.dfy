/** The documents both back ends keep, the request values they read, and the
    queries they run against their collections (findOne, deleteMany, deleteOne and
    the store's TTL sweep), modelled over tables kept in insertion order. */
module Records {

  datatype Option<T> = None | Some(value: T)

  /** One value of a JSON request body: absent (undefined or null) or a string. */
  datatype Field = Absent | Given(text: string)

  /** JavaScript falsiness of a body value: absent, or the empty string. */
  predicate Missing(f: Field) {
    f.Absent? || f.text == ""
  }

  /** The nine values a signup request carries. */
  datatype SignupBody = SignupBody(
    firstName: Field, lastName: Field, fullName: Field,
    username: Field, email: Field, password: Field,
    dob: Field, gender: Field, region: Field)

  /** A document of the users collection. Only the server.js schema stamps createdAt. */
  datatype User = User(
    firstName: Field, lastName: Field, fullName: Field,
    username: Field, email: Field, password: Field,
    dob: Field, gender: Field, region: Field,
    createdAt: Option<int>)

  /** The nine body values a user document holds. */
  function BodyOf(u: User): SignupBody {
    SignupBody(u.firstName, u.lastName, u.fullName,
               u.username, u.email, u.password,
               u.dob, u.gender, u.region)
  }

  /** `new User({...})` from a signup body: every field copied as it arrived, so
      the body reads back unchanged and only the timestamp is added. */
  function NewUser(body: SignupBody, createdAt: Option<int>): (u: User)
    ensures BodyOf(u) == body && u.createdAt == createdAt
  {
    User(body.firstName, body.lastName, body.fullName,
         body.username, body.email, body.password,
         body.dob, body.gender, body.region,
         createdAt)
  }

  /** The filter documents the handlers pass to `User.findOne`. */
  datatype UserFilter =
    | ByUsername(username: Field)
    | ByEmail(email: Field)
    | ByEmailOrUsername(email: Field, username: Field)

  predicate Matches(u: User, f: UserFilter) {
    match f
    case ByUsername(n) => u.username == n
    case ByEmail(e) => u.email == e
    case ByEmailOrUsername(e, n) => u.email == e || u.username == n
  }

  /** `User.findOne(filter)`: the position of the first user, in insertion order,
      that the filter matches, or None when no user does. */
  function FindUser(users: seq<User>, f: UserFilter): (r: Option<nat>)
    ensures r.Some? ==> r.value < |users| && Matches(users[r.value], f)
    ensures r.Some? ==> forall j :: 0 <= j < r.value ==> !Matches(users[j], f)
    ensures r.None? <==> forall j :: 0 <= j < |users| ==> !Matches(users[j], f)
  {
    if |users| == 0 then None
    else if Matches(users[0], f) then Some(0)
    else match FindUser(users[1..], f)
      case None => None
      case Some(k) => Some(k + 1)
  }

  /** A document of the OTP collection; id stands for Mongo's _id. */
  datatype OtpRecord = OtpRecord(id: nat, email: string, code: string, createdAt: int)

  /** The TTL index on createdAt: `expires: 300` seconds (server.js:45). */
  const OTP_LIFETIME := 300

  /** A record the TTL monitor may evict at time now. */
  predicate Expired(x: OtpRecord, now: int) {
    now - x.createdAt >= OTP_LIFETIME
  }

  predicate IsMatch(x: OtpRecord, email: string, code: string) {
    x.email == email && x.code == code
  }

  /** Some record carries both the email and the code. */
  predicate HasCode(codes: seq<OtpRecord>, email: string, code: string) {
    exists i :: 0 <= i < |codes| && IsMatch(codes[i], email, code)
  }

  /** Two different records carry the same email and code. */
  predicate Duplicated(codes: seq<OtpRecord>, email: string, code: string) {
    exists i, j :: 0 <= i < j < |codes| && IsMatch(codes[i], email, code) && IsMatch(codes[j], email, code)
  }

  /** Record ids grow along the table and all lie below the next id to hand out. */
  predicate IdsAscending(codes: seq<OtpRecord>) {
    forall i, j :: 0 <= i < j < |codes| ==> codes[i].id < codes[j].id
  }

  /** `OTP.findOne({ email, code })`: the position of the first matching record. */
  function FindCode(codes: seq<OtpRecord>, email: string, code: string): (r: Option<nat>)
    ensures r.Some? ==> r.value < |codes| && IsMatch(codes[r.value], email, code)
    ensures r.Some? ==> forall j :: 0 <= j < r.value ==> !IsMatch(codes[j], email, code)
    ensures r.None? <==> !HasCode(codes, email, code)
  {
    if |codes| == 0 then None
    else if IsMatch(codes[0], email, code) then Some(0)
    else match FindCode(codes[1..], email, code)
      case None =>
        assert forall j :: 1 <= j < |codes| ==> codes[j] == codes[1..][j - 1];
        None
      case Some(k) => Some(k + 1)
  }

  /** The records of one email, in table order. */
  function WithEmail(codes: seq<OtpRecord>, email: string): (r: seq<OtpRecord>)
    ensures forall x {:trigger x in r} :: x in r <==> x in codes && x.email == email
  {
    if |codes| == 0 then []
    else
      var last := codes[|codes| - 1];
      WithEmail(codes[..|codes| - 1], email) + (if last.email == email then [last] else [])
  }

  /** `OTP.deleteMany({ email })`: the table without the records of that email. */
  function WithoutEmail(codes: seq<OtpRecord>, email: string): (r: seq<OtpRecord>)
    ensures forall x {:trigger x in r} :: x in r <==> x in codes && x.email != email
  {
    if |codes| == 0 then []
    else
      var last := codes[|codes| - 1];
      WithoutEmail(codes[..|codes| - 1], email) + (if last.email != email then [last] else [])
  }

  /** `OTP.deleteOne({ _id: id })`: the table without the record of that id. */
  function WithoutId(codes: seq<OtpRecord>, id: nat): (r: seq<OtpRecord>)
    ensures forall x {:trigger x in r} :: x in r <==> x in codes && x.id != id
  {
    if |codes| == 0 then []
    else
      var last := codes[|codes| - 1];
      WithoutId(codes[..|codes| - 1], id) + (if last.id != id then [last] else [])
  }

  /** The TTL monitor's sweep at time now: the table without its expired records. */
  function Unexpired(codes: seq<OtpRecord>, now: int): (r: seq<OtpRecord>)
    ensures forall x {:trigger x in r} :: x in r <==> x in codes && !Expired(x, now)
  {
    if |codes| == 0 then []
    else
      var last := codes[|codes| - 1];
      Unexpired(codes[..|codes| - 1], now) + (if !Expired(last, now) then [last] else [])
  }

  /** In a table with ascending ids the last record's id exceeds every earlier one. */
  lemma LastIdAboveRest(codes: seq<OtpRecord>)
    requires IdsAscending(codes) && |codes| > 0
    ensures forall y :: y in codes[..|codes| - 1] ==> y.id < codes[|codes| - 1].id
  {
    forall y | y in codes[..|codes| - 1]
      ensures y.id < codes[|codes| - 1].id
    {
      var k :| 0 <= k < |codes| - 1 && codes[..|codes| - 1][k] == y;
    }
  }

  lemma AppendAscending(r: seq<OtpRecord>, x: OtpRecord)
    requires IdsAscending(r)
    requires forall y :: y in r ==> y.id < x.id
    ensures IdsAscending(r + [x])
  {
    forall i, j | 0 <= i < j < |r| + 1
      ensures (r + [x])[i].id < (r + [x])[j].id
    {
      if j == |r| {
        assert r[i] in r;
      }
    }
  }

  /** deleteMany, deleteOne and the TTL sweep keep only records of the table, in
      order, so record ids stay ascending. */
  lemma {:induction false} FiltersKeepIdsAscending(codes: seq<OtpRecord>, email: string, id: nat, now: int)
    requires IdsAscending(codes)
    ensures IdsAscending(WithoutEmail(codes, email))
    ensures IdsAscending(WithoutId(codes, id))
    ensures IdsAscending(Unexpired(codes, now))
    decreases |codes|
  {
    if |codes| > 0 {
      var p := codes[..|codes| - 1];
      var last := codes[|codes| - 1];
      FiltersKeepIdsAscending(p, email, id, now);
      LastIdAboveRest(codes);
      if last.email != email { AppendAscending(WithoutEmail(p, email), last); }
      if last.id != id { AppendAscending(WithoutId(p, id), last); }
      if !Expired(last, now) { AppendAscending(Unexpired(p, now), last); }
    }
  }

  /** Removing the id of a record no other record shares takes out exactly that
      one position and keeps every other record in order. */
  lemma {:induction false} WithoutIdAt(codes: seq<OtpRecord>, i: nat)
    requires i < |codes|
    requires forall j :: 0 <= j < |codes| && j != i ==> codes[j].id != codes[i].id
    ensures WithoutId(codes, codes[i].id) == codes[..i] + codes[i + 1..]
    decreases |codes|
  {
    var n := |codes|;
    var p := codes[..n - 1];
    var id := codes[i].id;
    if i == n - 1 {
      NoSuchId(p, id);
      assert codes[..i] == p && codes[i + 1..] == [];
    } else {
      assert p[i] == codes[i];
      WithoutIdAt(p, i);
      assert codes[..i] == p[..i];
      assert codes[i + 1..] == p[i + 1..] + [codes[n - 1]];
    }
  }

  /** Removing an id no record carries leaves the table as it was. */
  lemma {:induction false} NoSuchId(codes: seq<OtpRecord>, id: nat)
    requires forall j :: 0 <= j < |codes| ==> codes[j].id != id
    ensures WithoutId(codes, id) == codes
    decreases |codes|
  {
    if |codes| > 0 {
      var p := codes[..|codes| - 1];
      NoSuchId(p, id);
      assert codes == p + [codes[|codes| - 1]];
    }
  }

  /** Appending a record distributes over both halves of the split by email. */
  lemma AppendSplitsByEmail(codes: seq<OtpRecord>, x: OtpRecord, email: string)
    ensures WithEmail(codes + [x], email) == WithEmail(codes, email) + (if x.email == email then [x] else [])
    ensures WithoutEmail(codes + [x], email) == WithoutEmail(codes, email) + (if x.email != email then [x] else [])
  {
    assert (codes + [x])[..|codes|] == codes;
  }

  /** After deleteMany({ email }) no record of the email is left, and a second
      deleteMany changes nothing. */
  lemma {:induction false} DeleteManyClearsEmail(codes: seq<OtpRecord>, email: string)
    ensures WithEmail(WithoutEmail(codes, email), email) == []
    ensures WithoutEmail(WithoutEmail(codes, email), email) == WithoutEmail(codes, email)
    decreases |codes|
  {
    if |codes| > 0 {
      var p := codes[..|codes| - 1];
      var last := codes[|codes| - 1];
      DeleteManyClearsEmail(p, email);
      if last.email != email {
        assert WithoutEmail(codes, email) == WithoutEmail(p, email) + [last];
        AppendSplitsByEmail(WithoutEmail(p, email), last, email);
      } else {
        assert WithoutEmail(codes, email) == WithoutEmail(p, email);
      }
    }
  }
}
