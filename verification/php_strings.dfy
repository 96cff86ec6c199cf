/** The PHP string and scalar semantics the guard relies on: truthiness,
    `explode` on a one-character separator, and conversion between integers
    and their decimal text. */
module PhpStrings {
  import opened Wrappers

  /** PHP truthiness of a string: every string except "" and "0" is true. */
  predicate StrTruthy(s: string) {
    s != "" && s != "0"
  }

  /** PHP truthiness of an integer: every integer except 0 is true. */
  predicate IntTruthy(i: int) {
    i != 0
  }

  /** Number of occurrences of `c` in `s`. */
  function Count(c: char, s: string): (n: nat)
    ensures n <= |s|
    ensures n == 0 <==> c !in s
  {
    if |s| == 0 then 0
    else (if s[0] == c then 1 else 0) + Count(c, s[1..])
  }

  /** PHP `explode(sep, s)` for a one-character separator: the pieces of `s`
      between consecutive occurrences of `sep`. The empty string gives one
      empty piece, and there is always one piece more than separators. */
  function Explode(sep: char, s: string): (parts: seq<string>)
    ensures |parts| == Count(sep, s) + 1
    ensures forall i :: 0 <= i < |parts| ==> sep !in parts[i]
  {
    if |s| == 0 then [""]
    else
      var rest := Explode(sep, s[1..]);
      if s[0] == sep then [""] + rest
      else [[s[0]] + rest[0]] + rest[1..]
  }

  /** PHP `implode(sep, parts)`: the pieces glued together with `sep`. */
  function Join(sep: char, parts: seq<string>): string
    requires |parts| > 0
  {
    if |parts| == 1 then parts[0]
    else parts[0] + [sep] + Join(sep, parts[1..])
  }

  /** Gluing the pieces back together gives the exploded string. */
  lemma {:induction false} ExplodeJoin(sep: char, s: string)
    ensures Join(sep, Explode(sep, s)) == s
  {
    if |s| > 0 {
      var rest := Explode(sep, s[1..]);
      ExplodeJoin(sep, s[1..]);
      if s[0] == sep {
        assert Explode(sep, s)[1..] == rest;
        assert s == [s[0]] + s[1..];
      } else if |rest| == 1 {
        assert s == [s[0]] + s[1..];
      } else {
        var parts := Explode(sep, s);
        assert parts[1..] == rest[1..];
        assert Join(sep, rest) == rest[0] + [sep] + Join(sep, rest[1..]);
        assert s == [s[0]] + s[1..];
      }
    }
  }

  /** A string without the separator is one piece. */
  lemma {:induction false} ExplodeNoSep(sep: char, a: string)
    requires sep !in a
    ensures Explode(sep, a) == [a]
  {
    if |a| > 0 {
      assert sep !in a[1..];
      ExplodeNoSep(sep, a[1..]);
      assert a == [a[0]] + a[1..];
    }
  }

  /** A separator-free prefix followed by the separator becomes the first piece. */
  lemma {:induction false} ExplodeAfterPiece(sep: char, a: string, b: string)
    requires sep !in a
    ensures Explode(sep, a + [sep] + b) == [a] + Explode(sep, b)
  {
    if |a| == 0 {
      assert a + [sep] + b == [sep] + b;
      assert ([sep] + b)[1..] == b;
    } else {
      assert sep !in a[1..];
      var s := a + [sep] + b;
      assert s[1..] == a[1..] + [sep] + b;
      ExplodeAfterPiece(sep, a[1..], b);
      var rest := Explode(sep, s[1..]);
      assert rest[0] == a[1..] && rest[1..] == Explode(sep, b);
      assert s[0] == a[0] && s[0] != sep;
      assert Explode(sep, s) == [[a[0]] + rest[0]] + rest[1..];
      assert [a[0]] + a[1..] == a;
    }
  }

  /** Exploding a join of separator-free pieces gives the pieces back. */
  lemma {:induction false} JoinExplode(sep: char, parts: seq<string>)
    requires |parts| > 0
    requires forall i :: 0 <= i < |parts| ==> sep !in parts[i]
    ensures Explode(sep, Join(sep, parts)) == parts
  {
    if |parts| == 1 {
      ExplodeNoSep(sep, parts[0]);
    } else {
      assert sep !in parts[0];
      JoinExplode(sep, parts[1..]);
      ExplodeAfterPiece(sep, parts[0], Join(sep, parts[1..]));
      assert [parts[0]] + parts[1..] == parts;
    }
  }

  /** `explode` splits h, the separator, t into exactly [h, t] when neither
      half contains the separator. */
  lemma ExplodeTwo(sep: char, h: string, t: string)
    requires sep !in h && sep !in t
    ensures Explode(sep, h + [sep] + t) == [h, t]
  {
    ExplodeAfterPiece(sep, h, t);
    ExplodeNoSep(sep, t);
  }

  predicate IsDigit(c: char) {
    '0' <= c <= '9'
  }

  predicate AllDigits(s: string) {
    forall i :: 0 <= i < |s| ==> IsDigit(s[i])
  }

  function DigitChar(d: int): (c: char)
    requires 0 <= d < 10
    ensures IsDigit(c) && c as int - '0' as int == d
  {
    ('0' as int + d) as char
  }

  /** The decimal value of a string of digits (leading zeros allowed). */
  function DigitsValue(s: string): nat
    requires AllDigits(s)
  {
    if |s| == 0 then 0
    else DigitsValue(s[..|s| - 1]) * 10 + (s[|s| - 1] as int - '0' as int)
  }

  /** PHP's decimal text of a non-negative integer: no sign, no leading zeros. */
  function NatToString(n: nat): (s: string)
    ensures |s| > 0 && AllDigits(s)
    ensures s[0] == '0' ==> n == 0 && s == "0"
    ensures DigitsValue(s) == n
  {
    if n < 10 then [DigitChar(n)]
    else
      var init := NatToString(n / 10);
      var s := init + [DigitChar(n % 10)];
      assert s[..|s| - 1] == init;
      s
  }

  /** PHP's string conversion of an integer (`"" . $i`): an optional minus
      sign followed by the digits of the magnitude. */
  function IntToString(i: int): (s: string)
    ensures |s| > 0
    ensures s[0] == '-' <==> i < 0
    ensures s[0] != '-' ==> IsDigit(s[0])
    ensures forall k :: 0 < k < |s| ==> IsDigit(s[k])
    ensures s[0] == '0' ==> s == "0"
    ensures i < 0 ==> |s| >= 2 && s[1] != '0'
    ensures ParseInt(s) == Some(i)
  {
    if i < 0 then
      var s := "-" + NatToString(-i);
      assert s[1..] == NatToString(-i);
      s
    else
      assert !IsDigit('-');
      NatToString(i)
  }

  /** The integer denoted by an integer-shaped decimal string (an optional
      minus sign and at least one digit), the strings on which every PHP
      version's numeric coercion agrees; None for any other string. */
  function ParseInt(s: string): (r: Option<int>)
    ensures r.Some? ==> |s| > 0
  {
    if |s| > 1 && s[0] == '-' && AllDigits(s[1..]) then Some(0 - DigitsValue(s[1..]) as int)
    else if |s| > 0 && AllDigits(s) then Some(DigitsValue(s) as int)
    else None
  }

  /** Decimal text read back gives the integer written. */
  lemma IntStringRoundTrip(i: int)
    ensures ParseInt(IntToString(i)) == Some(i)
  {
    var s := IntToString(i);
    if i < 0 {
      assert s[0] == '-' && s[1..] == NatToString(-i);
    } else {
      assert !IsDigit('-');
      assert s[0] != '-';
    }
  }

  /** The decimal text of an integer never contains a colon. */
  lemma IntStringHasNoColon(i: int)
    ensures ':' !in IntToString(i)
  {
    var s := IntToString(i);
    assert forall k :: 0 <= k < |s| ==> s[k] != ':' by {
      assert !IsDigit(':');
    }
  }
}
