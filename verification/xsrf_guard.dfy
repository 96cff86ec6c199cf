/** The XSRF guard: a configuration record with PHP-style combined
    getter/setters, the default token generator and validator, and the
    operations that dispatch to a custom generator or validator when one is
    registered. The guard keeps no state between tokens: a token is
    base64(hash(alg, key ":" time) ":" time), and validating it needs only the
    configuration and the current time. */
module XsrfGuard {
  import opened Wrappers
  import opened PhpStrings
  import Base64

  /** A lowercase hexadecimal digest, the text PHP's `hash()` returns. */
  predicate IsLowerHex(s: string) {
    forall i :: 0 <= i < |s| ==> IsDigit(s[i]) || 'a' <= s[i] <= 'f'
  }

  type Digest = s: string | IsLowerHex(s) witness ""

  /** What a validator reports: success, or the message of the
      `Validation_error` it throws. */
  datatype Outcome = Valid | Invalid(message: string)

  const SyntaxError := "Invalid token syntax!"
  const ExpiredError := "Token died of old age and is no good around here anymore!"
  const TamperedError := "Looks like somebody tinkered that token, boy!"

  /** The guard's fields. Callbacks are held by name, as PHP callables are;
      `now`, `tokenGenerator` and `tokenValidator` start unset (PHP null),
      and so does `error`. */
  datatype Guard = Guard(
    key: string,
    userdata: string,
    timeout: int,
    fieldName: string,
    hashAlg: string,
    error: Option<string>,
    now: Option<int>,
    tokenGenerator: Option<string>,
    tokenValidator: Option<string>)

  /** `new Xsrf_guard()`: the declared defaults. */
  function NewGuard(): (g: Guard)
    ensures Key(g, None).1 == "" && Userdata(g, None).1 == ""
    ensures Timeout(g, None).1 == 900
    ensures FieldName(g, None).1 == "__xsrf_guard" && HashAlg(g, None).1 == "sha256"
    ensures Now(g, None).1.None?
    ensures TokenGenerator(g, None).1.None? && TokenValidator(g, None).1.None?
    ensures g.error.None?
  {
    Guard("", "", 900, "__xsrf_guard", "sha256", None, None, None, None)
  }

  /** Everything the guard takes from outside PHP code: the clock (`time()`),
      the hash function (`hash()`), `base64_decode` on texts the strict
      decoder rejects (length not a multiple of 4, characters outside the
      alphabet, misplaced padding), PHP's numeric reading of a timestamp text that is not
      a plain decimal integer, and the callables that exist, by name. */
  datatype Env = Env(
    clock: int,
    hash: (string, string) -> Digest,
    lenientDecode: string -> string,
    toNumber: string -> int,
    generators: map<string, Guard -> string>,
    validators: map<string, (Option<string>, Guard) -> Outcome>)

  /** What a submission to `validate` is: a token, or a form's fields. */
  datatype Submission = Raw(token: string) | Form(fields: map<string, string>)

  /** An argument to a string getter/setter that causes an assignment. */
  predicate GivenStr(arg: Option<string>) {
    arg.Some? && StrTruthy(arg.value)
  }

  /** An argument to an integer getter/setter that causes an assignment. */
  predicate GivenInt(arg: Option<int>) {
    arg.Some? && IntTruthy(arg.value)
  }

  // ---------------------------------------------------------------------------
  // Getter/setters: `x($x = null)` assigns only a PHP-truthy argument and then
  // returns the field. Each returns the updated guard and the returned value.

  function Key(g: Guard, arg: Option<string>): (res: (Guard, string))
    ensures res.1 == res.0.key
    ensures GivenStr(arg) ==> res.1 == arg.value
    ensures !GivenStr(arg) ==> res.0 == g
    ensures res.0.(key := g.key) == g
  {
    var g' := if GivenStr(arg) then g.(key := arg.value) else g;
    (g', g'.key)
  }

  function Userdata(g: Guard, arg: Option<string>): (res: (Guard, string))
    ensures res.1 == res.0.userdata
    ensures GivenStr(arg) ==> res.1 == arg.value
    ensures !GivenStr(arg) ==> res.0 == g
    ensures res.0.(userdata := g.userdata) == g
  {
    var g' := if GivenStr(arg) then g.(userdata := arg.value) else g;
    (g', g'.userdata)
  }

  function Timeout(g: Guard, arg: Option<int>): (res: (Guard, int))
    ensures res.1 == res.0.timeout
    ensures GivenInt(arg) ==> res.1 == arg.value
    ensures !GivenInt(arg) ==> res.0 == g
    ensures res.0.(timeout := g.timeout) == g
  {
    var g' := if GivenInt(arg) then g.(timeout := arg.value) else g;
    (g', g'.timeout)
  }

  function FieldName(g: Guard, arg: Option<string>): (res: (Guard, string))
    ensures res.1 == res.0.fieldName
    ensures GivenStr(arg) ==> res.1 == arg.value
    ensures !GivenStr(arg) ==> res.0 == g
    ensures res.0.(fieldName := g.fieldName) == g
  {
    var g' := if GivenStr(arg) then g.(fieldName := arg.value) else g;
    (g', g'.fieldName)
  }

  function HashAlg(g: Guard, arg: Option<string>): (res: (Guard, string))
    ensures res.1 == res.0.hashAlg
    ensures GivenStr(arg) ==> res.1 == arg.value
    ensures !GivenStr(arg) ==> res.0 == g
    ensures res.0.(hashAlg := g.hashAlg) == g
  {
    var g' := if GivenStr(arg) then g.(hashAlg := arg.value) else g;
    (g', g'.hashAlg)
  }

  function Now(g: Guard, arg: Option<int>): (res: (Guard, Option<int>))
    ensures res.1 == res.0.now
    ensures GivenInt(arg) ==> res.1 == arg
    ensures !GivenInt(arg) ==> res.0 == g
    ensures res.0.(now := g.now) == g
  {
    var g' := if GivenInt(arg) then g.(now := arg) else g;
    (g', g'.now)
  }

  function TokenGenerator(g: Guard, arg: Option<string>): (res: (Guard, Option<string>))
    ensures res.1 == res.0.tokenGenerator
    ensures GivenStr(arg) ==> res.1 == arg
    ensures !GivenStr(arg) ==> res.0 == g
    ensures res.0.(tokenGenerator := g.tokenGenerator) == g
  {
    var g' := if GivenStr(arg) then g.(tokenGenerator := arg) else g;
    (g', g'.tokenGenerator)
  }

  function TokenValidator(g: Guard, arg: Option<string>): (res: (Guard, Option<string>))
    ensures res.1 == res.0.tokenValidator
    ensures GivenStr(arg) ==> res.1 == arg
    ensures !GivenStr(arg) ==> res.0 == g
    ensures res.0.(tokenValidator := g.tokenValidator) == g
  {
    var g' := if GivenStr(arg) then g.(tokenValidator := arg) else g;
    (g', g'.tokenValidator)
  }

  // ---------------------------------------------------------------------------
  // The default token scheme.

  /** The time both default callbacks use: the guard's `now` when it is set
      to a truthy value, otherwise the clock. */
  function EffectiveNow(g: Guard, env: Env): int {
    if g.now.Some? && IntTruthy(g.now.value) then g.now.value else env.clock
  }

  /** The text the default generator encodes: the digest of key ":" time,
      a colon, and the time. */
  function Payload(env: Env, g: Guard, time: int): string {
    env.hash(g.hashAlg, g.key + ":" + IntToString(time)) + ":" + IntToString(time)
  }

  lemma PayloadIsByteString(env: Env, g: Guard, time: int)
    ensures Base64.IsByteString(Payload(env, g, time))
  {
    var h := env.hash(g.hashAlg, g.key + ":" + IntToString(time));
    var d := IntToString(time);
    var p := Payload(env, g, time);
    assert p == h + ":" + d;
    forall i | 0 <= i < |p|
      ensures p[i] as int < 256
    {
      if i < |h| {
        assert p[i] == h[i];
      } else if i > |h| {
        assert p[i] == d[i - |h| - 1];
      }
    }
  }

  /** `default_token_generator`: the base64 text of the payload at the
      effective time. */
  function DefaultTokenGenerator(env: Env, g: Guard): (token: string)
    ensures forall i :: 0 <= i < |token| ==> Base64.IsBase64Char(token[i])
    ensures Base64.Decode(token) == Some(Payload(env, g, EffectiveNow(g, env)))
  {
    var p := Payload(env, g, EffectiveNow(g, env));
    PayloadIsByteString(env, g, EffectiveNow(g, env));
    Base64.EncodeDecode(p);
    Base64.EncodeAlphabet(p);
    Base64.Encode(p)
  }

  /** PHP `base64_decode` (non-strict): the strict decoder's result on every
      text it accepts (leftover bits before the padding included, which PHP
      also discards), and whatever the library makes of the texts it rejects
      (length not a multiple of 4, characters outside the alphabet, misplaced
      padding). */
  function PhpBase64Decode(env: Env, s: string): string {
    match Base64.Decode(s)
    case Some(x) => x
    case None => env.lenientDecode(s)
  }

  /** The decoded text of a submitted token; a missing token (PHP null)
      decodes as the empty string. */
  function Decoded(env: Env, token: Option<string>): string {
    PhpBase64Decode(env, token.GetOr(""))
  }

  /** PHP's numeric reading of the timestamp text in `$token_time + ...`. */
  function TokenTime(env: Env, s: string): int {
    match ParseInt(s)
    case Some(n) => n
    case None => env.toNumber(s)
  }

  /** `default_token_validator`: the syntax check, then the age check, then
      the digest comparison, reporting the first that fails. */
  function DefaultTokenValidator(env: Env, token: Option<string>, g: Guard): (r: Outcome)
    ensures r == Invalid(SyntaxError) <==> Count(':', Decoded(env, token)) != 1
    ensures r.Invalid? ==> r.message in {SyntaxError, ExpiredError, TamperedError}
  {
    var parts := Explode(':', Decoded(env, token));
    if |parts| != 2 then Invalid(SyntaxError)
    else
      var hash := parts[0];
      var tokenTime := parts[1];
      if TokenTime(env, tokenTime) + g.timeout < EffectiveNow(g, env) then Invalid(ExpiredError)
      else if hash != env.hash(g.hashAlg, g.key + ":" + tokenTime) then Invalid(TamperedError)
      else Valid
  }

  // ---------------------------------------------------------------------------
  // Orchestration.

  predicate HasCustomGenerator(env: Env, g: Guard) {
    g.tokenGenerator.Some? && g.tokenGenerator.value in env.generators
  }

  predicate HasCustomValidator(env: Env, g: Guard) {
    g.tokenValidator.Some? && g.tokenValidator.value in env.validators
  }

  /** `token()`: the callable generator if one is set, else the default. */
  function Token(env: Env, g: Guard): (token: string)
    ensures HasCustomGenerator(env, g) ==> token == env.generators[g.tokenGenerator.value](g)
    ensures !HasCustomGenerator(env, g) ==>
      Base64.Decode(token) == Some(Payload(env, g, EffectiveNow(g, env)))
  {
    if HasCustomGenerator(env, g) then env.generators[g.tokenGenerator.value](g)
    else DefaultTokenGenerator(env, g)
  }

  /** The token `validate` hands to the validator: the submission itself, or
      the form's entry under the field name (PHP null when it is missing). */
  function SubmittedToken(sub: Submission, fieldName: string): (token: Option<string>)
    ensures sub.Raw? ==> token == Some(sub.token)
    ensures sub.Form? ==> (token.Some? <==> fieldName in sub.fields)
    ensures sub.Form? && token.Some? ==> token.value == sub.fields[fieldName]
  {
    match sub
    case Raw(t) => Some(t)
    case Form(fields) => if fieldName in fields then Some(fields[fieldName]) else None
  }

  /** `validate($token)`: the callable validator if one is set, else the
      default, applied to the submitted token. */
  function Validate(env: Env, g: Guard, sub: Submission): (r: Outcome)
    ensures HasCustomValidator(env, g) ==>
      r == env.validators[g.tokenValidator.value](SubmittedToken(sub, g.fieldName), g)
    ensures !HasCustomValidator(env, g) && sub.Form? && g.fieldName !in sub.fields ==>
      r == Invalid(SyntaxError)
    ensures !HasCustomValidator(env, g) ==>
      r == DefaultTokenValidator(env, SubmittedToken(sub, g.fieldName), g)
  {
    var token := SubmittedToken(sub, g.fieldName);
    if HasCustomValidator(env, g) then env.validators[g.tokenValidator.value](token, g)
    else DefaultTokenValidator(env, token, g)
  }

  /** `is_valid($token)`: whether validation succeeds; on failure the message
      is recorded in `error`, on success `error` keeps its previous value. */
  function IsValid(env: Env, g: Guard, sub: Submission): (res: (bool, Guard))
    ensures res.0 <==> Validate(env, g, sub).Valid?
    ensures res.0 ==> res.1 == g
    ensures !res.0 ==> res.1 == g.(error := Some(Validate(env, g, sub).message))
  {
    match Validate(env, g, sub)
    case Valid => (true, g)
    case Invalid(msg) => (false, g.(error := Some(msg)))
  }

  /** `xsrf_guard_field()` without the HTML: the field name and a fresh token. */
  function XsrfGuardField(env: Env, g: Guard): (field: (string, string))
    ensures field.0 == FieldName(g, None).1
    ensures HasCustomGenerator(env, g) ==> field.1 == env.generators[g.tokenGenerator.value](g)
    ensures !HasCustomGenerator(env, g) ==>
      Base64.Decode(field.1) == Some(Payload(env, g, EffectiveNow(g, env)))
  {
    (g.fieldName, Token(env, g))
  }
}
