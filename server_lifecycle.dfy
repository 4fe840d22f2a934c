/** Properties of the OTP lifecycle of server.js that span several requests:
    single use, invalidation by resend, and validity bounded only by the store's
    TTL eviction. */
module ServerLifecycle {
  import opened Records
  import opened OtpCode
  import opened Server

  /** Membership reading of HasCode. */
  lemma HasCodeIffMember(codes: seq<OtpRecord>, email: string, code: string)
    ensures HasCode(codes, email, code) <==> exists x :: x in codes && IsMatch(x, email, code)
  {
    if exists x :: x in codes && IsMatch(x, email, code) {
      var x :| x in codes && IsMatch(x, email, code);
      var k :| 0 <= k < |codes| && codes[k] == x;
    }
  }

  /** When x is the only record of an email, a code matches for that email
      exactly when it is x's, before and after a TTL sweep at time t. */
  lemma SoleRecord(codes: seq<OtpRecord>, email: string, x: OtpRecord, code: string, t: int)
    requires WithEmail(codes, email) == [x]
    ensures HasCode(codes, email, code) <==> code == x.code
    ensures HasCode(Unexpired(codes, t), email, code) <==> code == x.code && !Expired(x, t)
  {
    assert x in WithEmail(codes, email);
    HasCodeIffMember(codes, email, code);
    HasCodeIffMember(Unexpired(codes, t), email, code);
    if HasCode(codes, email, code) {
      var y :| y in codes && IsMatch(y, email, code);
      assert y in WithEmail(codes, email);
    }
    if HasCode(Unexpired(codes, t), email, code) {
      var y :| y in Unexpired(codes, t) && IsMatch(y, email, code);
      assert y in WithEmail(codes, email);
    }
    if code == x.code && !Expired(x, t) {
      assert x in Unexpired(codes, t);
    }
  }

  /** Two matching positions in a table whose email holds one record are one. */
  lemma SoleRecordNotDuplicated(codes: seq<OtpRecord>, email: string, x: OtpRecord, code: string)
    requires WithEmail(codes, email) == [x]
    requires IdsAscending(codes)
    ensures !Duplicated(codes, email, code)
  {
    forall k | 0 <= k < |codes| && codes[k].email == email
      ensures codes[k] == x
    {
      assert codes[k] in WithEmail(codes, email);
    }
  }

  /** A table with position i cut out still has a match exactly when some other
      position of the original matches. */
  lemma HasCodeWithout(codes: seq<OtpRecord>, i: nat, email: string, code: string)
    requires i < |codes|
    ensures HasCode(codes[..i] + codes[i + 1..], email, code) <==>
            exists k :: 0 <= k < |codes| && k != i && IsMatch(codes[k], email, code)
  {
    var s := codes[..i] + codes[i + 1..];
    assert forall m :: 0 <= m < i ==> s[m] == codes[m];
    assert forall m :: i <= m < |s| ==> s[m] == codes[m + 1];
    if HasCode(s, email, code) {
      var m :| 0 <= m < |s| && IsMatch(s[m], email, code);
      if m < i {
        assert IsMatch(codes[m], email, code);
      } else {
        assert IsMatch(codes[m + 1], email, code);
      }
    }
    if exists k :: 0 <= k < |codes| && k != i && IsMatch(codes[k], email, code) {
      var k :| 0 <= k < |codes| && k != i && IsMatch(codes[k], email, code);
      if k < i {
        assert IsMatch(s[k], email, code);
      } else {
        assert IsMatch(s[k - 1], email, code);
      }
    }
  }

  /** Cutting out the first match leaves a match exactly when there were two. */
  lemma CutFirstMatch(codes: seq<OtpRecord>, i: nat, email: string, code: string)
    requires i < |codes| && IsMatch(codes[i], email, code)
    requires forall j :: 0 <= j < i ==> !IsMatch(codes[j], email, code)
    ensures HasCode(codes[..i] + codes[i + 1..], email, code) <==> Duplicated(codes, email, code)
  {
    HasCodeWithout(codes, i, email, code);
    if Duplicated(codes, email, code) {
      var a, b :| 0 <= a < b < |codes| && IsMatch(codes[a], email, code) && IsMatch(codes[b], email, code);
      assert b != i;
    }
    if exists k :: 0 <= k < |codes| && k != i && IsMatch(codes[k], email, code) {
      var k :| 0 <= k < |codes| && k != i && IsMatch(codes[k], email, code);
      assert i < k;
    }
  }

  /** Appending a matching record: the table then has a match, and has two
      exactly when it had one before. */
  lemma AppendMatch(codes: seq<OtpRecord>, x: OtpRecord, email: string, code: string)
    requires IsMatch(x, email, code)
    ensures HasCode(codes + [x], email, code)
    ensures Duplicated(codes + [x], email, code) <==> HasCode(codes, email, code)
  {
    var s := codes + [x];
    assert s[|codes|] == x;
    if HasCode(codes, email, code) {
      var k :| 0 <= k < |codes| && IsMatch(codes[k], email, code);
      assert IsMatch(s[k], email, code);
    }
    if Duplicated(s, email, code) {
      var a, b :| 0 <= a < b < |s| && IsMatch(s[a], email, code) && IsMatch(s[b], email, code);
      assert s[a] == codes[a];
    }
  }

  /** A successful verify (server.js:142-148) removes exactly the first record that
      carries the email and the code (the position findOne returns) and keeps every
      other record in order, including other codes issued to the same email. */
  lemma VerifyConsumesFirstMatch(db: Db, email: string, code: string, fx: VerifyEffects)
    requires WellFormed(db)
    requires email != "" && code != ""
    requires fx.findOk && fx.deleteOk && HasCode(db.codes, email, code)
    ensures FindCode(db.codes, email, code).Some?
    ensures var i := FindCode(db.codes, email, code).value;
      VerifyCodeStep(db, Given(email), Given(code), fx).db.codes == db.codes[..i] + db.codes[i + 1..]
  {
    var r := VerifyCodeStep(db, Given(email), Given(code), fx);
    assert r.status == 200;
    WithoutIdAt(db.codes, FindCode(db.codes, email, code).value);
  }

  /** Repeating a successful verify fails with 400 exactly when the table held no
      second record with the same email and code; with both store calls
      succeeding it succeeds again exactly when it did. */
  lemma VerifyReplay(db: Db, email: string, code: string, fx1: VerifyEffects, fx2: VerifyEffects)
    requires WellFormed(db)
    requires email != "" && code != ""
    requires fx1.findOk && fx1.deleteOk && HasCode(db.codes, email, code)
    requires fx2.findOk
    ensures var again := VerifyCodeStep(VerifyCodeStep(db, Given(email), Given(code), fx1).db, Given(email), Given(code), fx2);
      (again.status == 400 <==> !Duplicated(db.codes, email, code)) &&
      (fx2.deleteOk ==> (again.status == 200 <==> Duplicated(db.codes, email, code)))
  {
    var r := VerifyCodeStep(db, Given(email), Given(code), fx1);
    VerifyConsumesFirstMatch(db, email, code, fx1);
    var i := FindCode(db.codes, email, code).value;
    CutFirstMatch(db.codes, i, email, code);
  }

  /** After a successful send-code (server.js:119-120) a code verifies for that
      email only if it is the new one: every earlier code is invalidated, even one
      never used. */
  lemma ResendInvalidatesEarlierCodes(db: Db, email: string, n: int, now: int, fx: ResendEffects,
                                      code: string, fxv: VerifyEffects)
    requires CODE_LOW <= n <= CODE_HIGH
    requires SendCodeStep(db, Given(email), n, now, fx).status == 200
    requires fxv.findOk
    ensures VerifyCodeStep(SendCodeStep(db, Given(email), n, now, fx).db, Given(email), Given(code), fxv).status == 400
            <==> code != GenerateOtp(n)
  {
    var r := SendCodeStep(db, Given(email), n, now, fx);
    SoleRecord(r.db.codes, email, Issued(db, email, GenerateOtp(n), now), code, 0);
  }

  /** The code a successful send-code issues verifies once and then no more. */
  lemma ResendCodeVerifiesOnce(db: Db, email: string, n: int, now: int, fx: ResendEffects,
                               fx1: VerifyEffects, fx2: VerifyEffects)
    requires WellFormed(db) && CODE_LOW <= n <= CODE_HIGH
    requires SendCodeStep(db, Given(email), n, now, fx).status == 200
    requires fx1.findOk && fx1.deleteOk && fx2.findOk
    ensures var first := VerifyCodeStep(SendCodeStep(db, Given(email), n, now, fx).db, Given(email), Given(GenerateOtp(n)), fx1);
      first.status == 200 &&
      VerifyCodeStep(first.db, Given(email), Given(GenerateOtp(n)), fx2).status == 400
  {
    var r := SendCodeStep(db, Given(email), n, now, fx);
    var code := GenerateOtp(n);
    ResendInvalidatesEarlierCodes(db, email, n, now, fx, code, fx1);
    SoleRecordNotDuplicated(r.db.codes, email, Issued(db, email, code, now), code);
    VerifyReplay(r.db, email, code, fx1, fx2);
  }

  /** Signup issues a code that verifies; because signup does not clear earlier
      records (server.js:94-95), the same verify succeeds a second time exactly
      when an older record for the email already held the same code. */
  lemma SignupCodeVerifies(db: Db, b: SignupBody, n: int, now: int, fx: SignupEffects,
                           fx1: VerifyEffects, fx2: VerifyEffects)
    requires WellFormed(db) && CODE_LOW <= n <= CODE_HIGH
    requires SignupStep(db, b, n, now, fx).status == 201
    requires fx1.findOk && fx1.deleteOk && fx2.findOk
    ensures var first := VerifyCodeStep(SignupStep(db, b, n, now, fx).db, b.email, Given(GenerateOtp(n)), fx1);
      first.status == 200 &&
      (VerifyCodeStep(first.db, b.email, Given(GenerateOtp(n)), fx2).status == 400
       <==> !HasCode(db.codes, b.email.text, GenerateOtp(n)))
  {
    var r := SignupStep(db, b, n, now, fx);
    var email, code := b.email.text, GenerateOtp(n);
    AppendMatch(db.codes, Issued(db, email, code, now), email, code);
    VerifyReplay(r.db, email, code, fx1, fx2);
  }

  /** Verify compares no timestamps (server.js:142): a record past its lifetime
      that the store has not yet evicted still verifies; once the TTL monitor has
      run, it no longer does. */
  lemma StaleCodeVerifiesUntilEvicted(db: Db, email: string, code: string, now: int, fx: VerifyEffects)
    requires email != "" && code != ""
    requires fx.findOk && fx.deleteOk
    requires HasCode(db.codes, email, code)
    requires forall x :: x in db.codes && IsMatch(x, email, code) ==> Expired(x, now)
    ensures VerifyCodeStep(db, Given(email), Given(code), fx).status == 200
    ensures VerifyCodeStep(EvictStep(db, now), Given(email), Given(code), fx).status == 400
  {
    var swept := EvictStep(db, now).codes;
    HasCodeIffMember(swept, email, code);
  }

  /** A code issued by send-code at time t0 verifies after the TTL monitor runs at
      time t exactly when it is younger than OTP_LIFETIME seconds. */
  lemma IssuedCodeLifetime(db: Db, email: string, n: int, t0: int, fx: ResendEffects, t: int, fxv: VerifyEffects)
    requires CODE_LOW <= n <= CODE_HIGH
    requires SendCodeStep(db, Given(email), n, t0, fx).status == 200
    requires fxv.findOk && fxv.deleteOk
    ensures VerifyCodeStep(EvictStep(SendCodeStep(db, Given(email), n, t0, fx).db, t),
                           Given(email), Given(GenerateOtp(n)), fxv).status == 200
            <==> t - t0 < OTP_LIFETIME
  {
    var r := SendCodeStep(db, Given(email), n, t0, fx);
    var code := GenerateOtp(n);
    SoleRecord(r.db.codes, email, Issued(db, email, code, t0), code, t);
    assert EvictStep(r.db, t).codes == Unexpired(r.db.codes, t);
  }
}
