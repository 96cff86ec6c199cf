# Xsrf_guard in Dafny

A model of `Xsrf_guard`, a PHP class that protects web forms against
cross-site request forgery. The guard holds a secret key, a timeout and a few
other settings. It issues a token `base64(hash(alg, key ":" time) ":" time)`.
It validates a submitted token in three steps, in this order:

1. The decoded text must split on `:` into exactly two parts.
2. The timestamp part must be no older than the timeout.
3. The digest part must equal the digest recomputed from the key and the timestamp text.

The guard keeps no token state. Custom generator and validator callbacks can
replace the default pair.

Modules:

- `Wrappers`: the `Option` type.
- `PhpStrings`: the PHP string behaviour the guard uses. This covers
  truthiness of strings and integers, `explode` on one character,
  integer-to-decimal conversion (`IntToString`), and `ParseInt`, which reads
  integer-shaped decimal strings. `ParseInt` is a left inverse of
  `IntToString`: it reads back every integer written, but it also accepts
  texts `IntToString` never writes, such as "007".
- `Base64`: `base64_encode` following section 4 of RFC 4648, and a strict
  decoder. The decoder is proved to invert the encoder.
- `XsrfGuard`: the `Guard` record with its defaults (`key = ""`,
  `userdata = ""`, `timeout = 900`, `field_name = "__xsrf_guard"`,
  `hash_alg = "sha256"`; `now`, `error` and both callbacks unset). It also holds
  the combined getter/setters, the default generator and validator, and
  `token`, `validate`, `is_valid` and `xsrf_guard_field`. The PHP `error()`
  getter is the record's `error` field.
- `GuardProperties`: lemmas relating these operations.

Three helpers in `XsrfGuard` carry PHP behaviour the rows below rely on:

- `EffectiveNow` models source lines 281-283 and 299-301. It uses `now` when
  that is set and truthy, and `time()` otherwise.
- `PhpBase64Decode` models line 303. It applies the strict decoder, or
  `lenientDecode` when the strict decoder rejects the text.
- `TokenTime` models the numeric reading of `$token_time` at line 311. It
  uses `ParseInt` for integer-shaped text and `toNumber` otherwise.

Foreign calls become fields of an `Env` record passed to every operation:

- `time()` becomes `clock`.
- `hash()` becomes `hash`, an arbitrary function whose result type is a
  lowercase hexadecimal string. So a digest never contains `:`.
- `base64_decode` on text the strict decoder rejects becomes `lenientDecode`.
  The strict decoder rejects text whose length is not a multiple of 4, text
  with characters outside the alphabet, and text with misplaced padding. It
  accepts non-zero leftover bits before the padding, as PHP does (`"AB=="`
  decodes to one byte). On every text it accepts, the model uses its result
  (`XsrfGuard.PhpBase64Decode`, source line 303).
- PHP's numeric reading of a timestamp text that is not an integer-shaped
  decimal becomes `toNumber`.
- The set of callables becomes two maps from callback name to function. A
  callback is stored by name, and `is_callable` means the name is in the map.

Getter/setters return the updated guard together with the value PHP returns.
An argument of `None` stands for PHP's `null` default.

The source comment on the default validator says it checks the
"key + userdata hash". The code never reads `userdata` in either default
callback. The model follows the code, and `GuardProperties.UserdataIndependence`
states the consequence.

The code has no separate missing-field error. It does not reject a
non-numeric timestamp. It compares digests with `!==`, not in constant time.
A form without the field reaches the default
validator as a null token and fails the syntax check (see
`GuardProperties.MissingFieldRejected`). The timestamp goes through PHP's
numeric coercion. The model follows the code in all three cases.

## Model

| member | source | states |
|---|---|---|
| XsrfGuard.Key | lib/xsrf_guard/Xsrf_guard.php:99-105 | the key is replaced only by a PHP-truthy argument (not null, "" or "0"); a falsy one leaves the whole guard unchanged; no other field ever changes; the returned value is the key now held |
| XsrfGuard.Userdata | lib/xsrf_guard/Xsrf_guard.php:110-116 | same set-if-truthy and frame behaviour for userdata |
| XsrfGuard.Timeout | lib/xsrf_guard/Xsrf_guard.php:121-127 | the timeout is replaced only by a non-zero integer, so timeout(0) is ignored; no other field changes; returns the timeout now held |
| XsrfGuard.FieldName | lib/xsrf_guard/Xsrf_guard.php:132-138 | same set-if-truthy and frame behaviour for the field name |
| XsrfGuard.HashAlg | lib/xsrf_guard/Xsrf_guard.php:151-157 | same set-if-truthy and frame behaviour for the hash algorithm name |
| XsrfGuard.Now | lib/xsrf_guard/Xsrf_guard.php:162-168 | `now` is set only by a non-zero timestamp; no other field changes; returns the (possibly unset) value held |
| XsrfGuard.TokenGenerator | lib/xsrf_guard/Xsrf_guard.php:173-179 | the generator callback is replaced only by a truthy callback name; no other field changes |
| XsrfGuard.TokenValidator | lib/xsrf_guard/Xsrf_guard.php:184-190 | the validator callback is replaced only by a truthy callback name; no other field changes |
| XsrfGuard.NewGuard | lib/xsrf_guard/Xsrf_guard.php:62-94 | a new guard's getters return the declared defaults: key "", userdata "", timeout 900, field name "__xsrf_guard", algorithm "sha256", and no `now`, callbacks or error |
| XsrfGuard.XsrfGuardField | lib/xsrf_guard/Xsrf_guard.php:213-220 | the pair carries the configured field name and the output of `token()`: the callable custom generator's output when one is set, otherwise a token that decodes to the default payload; GuardProperties.FieldRoundTrip shows a form built from it is accepted |
| XsrfGuard.Token | lib/xsrf_guard/Xsrf_guard.php:199-207 | a callable custom generator's output is returned when one is set; otherwise the token decodes to digest ":" time at the effective time |
| XsrfGuard.SubmittedToken | lib/xsrf_guard/Xsrf_guard.php:238-239 | a raw token is passed on as is; from a form, the entry under the field name is used, or null when the field is missing |
| XsrfGuard.Validate | lib/xsrf_guard/Xsrf_guard.php:236-247 | a callable custom validator decides when one is set, otherwise the default validator on the submitted token; a form without the field is rejected as bad syntax |
| XsrfGuard.IsValid | lib/xsrf_guard/Xsrf_guard.php:264-274 | returns true exactly when validation succeeds; on failure records the failure message in `error`; on success leaves the guard, `error` included, unchanged |
| XsrfGuard.DefaultTokenGenerator | lib/xsrf_guard/Xsrf_guard.php:279-291 | the token is base64 text whose decoding is the digest of key ":" time, a colon, and the time, where the time is `now` if set and truthy, else the clock |
| XsrfGuard.DefaultTokenValidator | lib/xsrf_guard/Xsrf_guard.php:297-319 | the syntax error is reported exactly when the decoded token does not contain exactly one colon; every failure carries one of the three source messages |
| PhpStrings.Explode | lib/xsrf_guard/Xsrf_guard.php:304 | `explode` yields one piece more than there are separators, and no piece contains the separator |
| PhpStrings.ExplodeJoin | lib/xsrf_guard/Xsrf_guard.php:304 | gluing the pieces of `explode` back together with the separator gives the original string |
| PhpStrings.JoinExplode | lib/xsrf_guard/Xsrf_guard.php:304 | exploding a join of separator-free pieces gives exactly those pieces back |
| PhpStrings.ExplodeTwo | lib/xsrf_guard/Xsrf_guard.php:304-309 | "h:t" with no colon in h or t explodes into exactly [h, t] |
| PhpStrings.IntToString | lib/xsrf_guard/Xsrf_guard.php:286-287 | PHP's canonical decimal text of an integer: non-empty, '-' first exactly when the integer is negative, digits everywhere else, no leading zero except for "0" itself, and it reads back as the integer |
| PhpStrings.IntStringRoundTrip | lib/xsrf_guard/Xsrf_guard.php:286-287 | the decimal text of an integer reads back as that integer, so the timestamp written by the generator is the one the age check compares |
| PhpStrings.IntStringHasNoColon | lib/xsrf_guard/Xsrf_guard.php:287 | the decimal text of a timestamp never contains a colon |
| Base64.Encode | lib/xsrf_guard/Xsrf_guard.php:285 | `base64_encode` output has length 4 * ceil(n / 3) for n input bytes |
| Base64.EncodeAlphabet | lib/xsrf_guard/Xsrf_guard.php:285 | `base64_encode` output uses only alphabet and pad characters |
| Base64.EncodeDecode | lib/xsrf_guard/Xsrf_guard.php:285-288 | decoding the encoding of any byte string gives that byte string back |
| GuardProperties.DefaultTokenPieces | lib/xsrf_guard/Xsrf_guard.php:285-288 | a default token decodes and explodes into exactly the digest and the issue-time text |
| GuardProperties.AgeBoundary | lib/xsrf_guard/Xsrf_guard.php:311-312 | a token issued at t and checked at t' by the same configuration passes exactly when t' <= t + timeout, and is otherwise reported expired |
| GuardProperties.RoundTrip | lib/xsrf_guard/Xsrf_guard.php:279-319 | a default token validates at its issue time exactly when the timeout is not negative; with a negative timeout it is expired at once |
| GuardProperties.DemoTimeout | demo.php:14-24 | with key "topsecret" and timeout 3, a token issued at 1000 is accepted at 1000 through 1003 and expired at 1004 |
| GuardProperties.EmptyTokenRejected | lib/xsrf_guard/Xsrf_guard.php:303-307 | the empty token and a null token are rejected with "Invalid token syntax!" |
| GuardProperties.MissingFieldRejected | lib/xsrf_guard/Xsrf_guard.php:238-239 | a form lacking the token field fails `is_valid` with the syntax message recorded |
| GuardProperties.ErrorPrecedence | lib/xsrf_guard/Xsrf_guard.php:306-316 | a well-formed but too old token is reported expired whatever its digest part, so tampering is never reported for it |
| GuardProperties.Integrity | lib/xsrf_guard/Xsrf_guard.php:314-318 | a well-formed unexpired token passes exactly when its digest part equals hash(alg, key ":" timestamp-text), otherwise it is reported tampered |
| GuardProperties.AcceptedTokenShape | lib/xsrf_guard/Xsrf_guard.php:303-318 | an accepted token decodes to digest ":" timestamp with one colon, is not too old, and carries the matching digest |
| GuardProperties.UserdataIndependence | lib/xsrf_guard/Xsrf_guard.php:279-319 | the default token and the default verdict do not depend on `userdata` |
| GuardProperties.FieldRoundTrip | lib/xsrf_guard/Xsrf_guard.php:213-220 | the field name and token of `xsrf_guard_field`, submitted in a form among any other fields, pass `validate` and `is_valid` at the same time |
| GuardProperties.NewGuardRoundTrip | lib/xsrf_guard/Xsrf_guard.php:62-94 | a guard with the declared defaults and any key accepts its own token |
| GuardProperties.FalsyArgumentsIgnored | lib/xsrf_guard/Xsrf_guard.php:99-168 | timeout(0), now(0), key(""), key("0") and the null arguments key(null), timeout(null) and now(null) leave the guard unchanged |

## Left out

- HTML rendering in `xsrf_guard_field`: `XsrfGuard.XsrfGuardField` returns the field name and token instead of the `<input>` markup.
- `demo.php` request handling and page output. Only its configuration is used, in `GuardProperties.DemoTimeout`.
- Real hash algorithms and `time()`: these are the `hash` and `clock` fields of `Env`. `hash()` with an unknown algorithm name, which returns false or throws depending on the PHP version, is not modelled.
- PHP's non-strict `base64_decode` on text the strict decoder rejects (length not a multiple of 4, characters outside the alphabet, misplaced padding) is the uninterpreted `lenientDecode`.
- PHP's numeric coercion of a timestamp text that is not an optional minus sign followed by digits is the uninterpreted `toNumber`. This covers whitespace, a plus sign, fractions, exponents and non-numeric text. PHP 8 throws a `TypeError` for non-numeric text, and that error would escape `is_valid`. 64-bit overflow of `$token_time + timeout` into a float is not modelled either.
- Field values are typed: key, userdata, field name, hash algorithm and callback names are strings; timeout and now are integers. PHP would also accept other scalar types, arrays and closures there.
- Callbacks are names resolved in `Env`. The static `$default_token_generator` and `$default_token_validator` properties are treated as fixed, although PHP code could reassign them.
- Custom callbacks are modelled as unable to modify the guard they receive. In PHP they get the live object (lines 206 and 246) and could call its setters before returning or throwing. `XsrfGuard.IsValid`'s promise that success leaves the guard unchanged, and the fields `Token` and `Validate` read, hold only under this restriction.
- A custom generator receives the guard but not `Env`. A custom validator's non-exception return value is not modelled: `is_valid` ignores it.
- Exceptions other than `Validation_error` are not modelled. The `Validation_error` class itself is not part of this model; its `errors()` is taken to return the message it was built with.
- Form fields are a map from string to string. PHP's integer-like array keys and nested array values are not modelled.
