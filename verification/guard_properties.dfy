/** Properties of the default token scheme and of the guard's operations:
    the generate/validate round trip, the exact expiry boundary, the order in
    which the validator reports failures, integrity, and the independence of
    the default scheme from `userdata`. */
module GuardProperties {
  import opened Wrappers
  import opened PhpStrings
  import opened XsrfGuard
  import Base64

  lemma DigestHasNoColon(h: Digest)
    ensures ':' !in h
  {
    assert forall i :: 0 <= i < |h| ==> h[i] != ':';
  }

  /** A default token decodes to exactly two pieces: the digest of key ":"
      time, and the decimal text of the time it was issued at. */
  lemma DefaultTokenPieces(env: Env, g: Guard)
    ensures Explode(':', Decoded(env, Some(DefaultTokenGenerator(env, g)))) ==
      [env.hash(g.hashAlg, g.key + ":" + IntToString(EffectiveNow(g, env))),
       IntToString(EffectiveNow(g, env))]
  {
    var t := EffectiveNow(g, env);
    var h := env.hash(g.hashAlg, g.key + ":" + IntToString(t));
    DigestHasNoColon(h);
    IntStringHasNoColon(t);
    ExplodeTwo(':', h, IntToString(t));
  }

  /** A token issued at time t by one guard, checked at time t' by the same
      guard configuration with a possibly different clock and `now`, passes
      exactly when t' <= t + timeout, and otherwise is reported expired. */
  lemma AgeBoundary(env: Env, g: Guard, clock: int, now: Option<int>)
    ensures
      var issued := EffectiveNow(g, env);
      var checked := EffectiveNow(g.(now := now), env.(clock := clock));
      var r := DefaultTokenValidator(env.(clock := clock), Some(DefaultTokenGenerator(env, g)), g.(now := now));
      && (r == Valid <==> checked <= issued + g.timeout)
      && (r != Valid ==> r == Invalid(ExpiredError))
  {
    var env2 := env.(clock := clock);
    var g2 := g.(now := now);
    var token := DefaultTokenGenerator(env, g);
    var issued := EffectiveNow(g, env);
    DefaultTokenPieces(env, g);
    assert Decoded(env2, Some(token)) == Decoded(env, Some(token));
    IntStringRoundTrip(issued);
    assert TokenTime(env2, IntToString(issued)) == issued;
  }

  /** Round trip: a default token validates at the moment it was issued
      exactly when the timeout is not negative; a negative timeout makes it
      expired at once. */
  lemma RoundTrip(env: Env, g: Guard)
    ensures DefaultTokenValidator(env, Some(DefaultTokenGenerator(env, g)), g) == Valid <==> g.timeout >= 0
    ensures g.timeout < 0 ==>
      DefaultTokenValidator(env, Some(DefaultTokenGenerator(env, g)), g) == Invalid(ExpiredError)
  {
    AgeBoundary(env, g, env.clock, g.now);
    assert env.(clock := env.clock) == env;
    assert g.(now := g.now) == g;
  }

  /** The demonstration setup: key "topsecret" and a timeout of 3 seconds.
      A token issued at 1000 is accepted through 1003 and expired at 1004. */
  lemma DemoTimeout(env: Env, check: int)
    requires 1000 <= check <= 1004
    ensures
      var g := Timeout(Key(NewGuard(), Some("topsecret")).0, Some(3)).0;
      var token := Token(env, Now(g, Some(1000)).0);
      var r := Validate(env, Now(g, Some(check)).0, Raw(token));
      && (check <= 1003 ==> r == Valid)
      && (check == 1004 ==> r == Invalid(ExpiredError))
  {
    var g := Timeout(Key(NewGuard(), Some("topsecret")).0, Some(3)).0;
    var issuer := Now(g, Some(1000)).0;
    assert g.tokenGenerator.None? && g.tokenValidator.None? && g.timeout == 3;
    AgeBoundary(env, issuer, env.clock, Some(check));
    assert issuer.(now := Some(check)) == Now(g, Some(check)).0;
    assert env.(clock := env.clock) == env;
  }

  /** The empty token and a missing one are rejected as bad syntax. */
  lemma EmptyTokenRejected(env: Env, g: Guard)
    ensures DefaultTokenValidator(env, Some(""), g) == Invalid(SyntaxError)
    ensures DefaultTokenValidator(env, None, g) == Invalid(SyntaxError)
  {
    assert Base64.Decode("") == Some("");
  }

  /** A form submission without the token field is rejected as bad syntax,
      and `is_valid` records that message. */
  lemma MissingFieldRejected(env: Env, g: Guard, fields: map<string, string>)
    requires !HasCustomValidator(env, g) && g.fieldName !in fields
    ensures IsValid(env, g, Form(fields)) == (false, g.(error := Some(SyntaxError)))
  {
  }

  /** Age is checked before integrity: a well-formed token that is too old
      is reported expired whatever its digest part says. */
  lemma ErrorPrecedence(env: Env, g: Guard, token: Option<string>, h: string, t: string)
    requires Decoded(env, token) == h + ":" + t && ':' !in h && ':' !in t
    requires TokenTime(env, t) + g.timeout < EffectiveNow(g, env)
    ensures DefaultTokenValidator(env, token, g) == Invalid(ExpiredError)
  {
    ExplodeTwo(':', h, t);
  }

  /** A well-formed token that is not too old is accepted exactly when its
      digest part equals the digest of key ":" timestamp-text, and is reported
      tampered otherwise. */
  lemma Integrity(env: Env, g: Guard, token: Option<string>, h: string, t: string)
    requires Decoded(env, token) == h + ":" + t && ':' !in h && ':' !in t
    requires TokenTime(env, t) + g.timeout >= EffectiveNow(g, env)
    ensures DefaultTokenValidator(env, token, g) == Valid <==> h == env.hash(g.hashAlg, g.key + ":" + t)
    ensures DefaultTokenValidator(env, token, g) != Valid ==>
      DefaultTokenValidator(env, token, g) == Invalid(TamperedError)
  {
    ExplodeTwo(':', h, t);
  }

  /** Everything an accepted token must be: its decoded text is one digest
      part and one timestamp part around a single colon, the timestamp is not
      too old, and the digest is that of key ":" timestamp-text. */
  lemma AcceptedTokenShape(env: Env, g: Guard, token: Option<string>)
    requires DefaultTokenValidator(env, token, g) == Valid
    ensures
      var d := Decoded(env, token);
      var p := Explode(':', d);
      && |p| == 2
      && d == p[0] + ":" + p[1]
      && TokenTime(env, p[1]) + g.timeout >= EffectiveNow(g, env)
      && p[0] == env.hash(g.hashAlg, g.key + ":" + p[1])
  {
    var d := Decoded(env, token);
    var p := Explode(':', d);
    ExplodeJoin(':', d);
    assert p[1..] == [p[1]];
  }

  /** The default scheme never reads `userdata`: the token and the verdict
      are the same whatever it holds. */
  lemma UserdataIndependence(env: Env, g: Guard, token: Option<string>, u: string)
    ensures DefaultTokenGenerator(env, g.(userdata := u)) == DefaultTokenGenerator(env, g)
    ensures DefaultTokenValidator(env, token, g.(userdata := u)) == DefaultTokenValidator(env, token, g)
  {
  }

  /** The hidden field round trip: a form carrying the guard's field name and
      token, among any other fields, is accepted by the same guard at the same
      time when no custom callbacks are set and the timeout is not negative. */
  lemma FieldRoundTrip(env: Env, g: Guard, others: map<string, string>)
    requires !HasCustomGenerator(env, g) && !HasCustomValidator(env, g) && g.timeout >= 0
    ensures
      var f := XsrfGuardField(env, g);
      && f.0 == g.fieldName
      && Validate(env, g, Form(others[f.0 := f.1])) == Valid
      && IsValid(env, g, Form(others[f.0 := f.1])) == (true, g)
  {
    RoundTrip(env, g);
  }

  /** A fresh guard accepts its own token, whatever its key. */
  lemma NewGuardRoundTrip(env: Env, key: string)
    ensures
      var g := Key(NewGuard(), Some(key)).0;
      Validate(env, g, Raw(Token(env, g))) == Valid
  {
    var g := Key(NewGuard(), Some(key)).0;
    RoundTrip(env, g);
  }

  /** PHP-falsy arguments do not assign: `timeout(0)`, `key('')`, `key('0')`
      and a null argument all leave the guard as it was. */
  lemma FalsyArgumentsIgnored(g: Guard)
    ensures Timeout(g, Some(0)).0 == g && Timeout(g, None).0 == g
    ensures Key(g, Some("")).0 == g && Key(g, Some("0")).0 == g && Key(g, None).0 == g
    ensures Now(g, Some(0)).0 == g && Now(g, None).0 == g
  {
  }
}
