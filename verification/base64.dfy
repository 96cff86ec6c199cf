/** Base64 as defined in section 4 of RFC 4648: PHP's `base64_encode`, and a
    strict decoder for the texts that encoding produces. PHP strings are byte
    strings; here a byte string is a `string` whose characters are all below
    256. */
module Base64 {
  import opened Wrappers

  predicate IsByteString(s: string) {
    forall i :: 0 <= i < |s| ==> s[i] as int < 256
  }

  /** The character of the RFC 4648 alphabet standing for a 6-bit value. */
  function SextetChar(v: int): char
    requires 0 <= v < 64
  {
    if v < 26 then ('A' as int + v) as char
    else if v < 52 then ('a' as int + (v - 26)) as char
    else if v < 62 then ('0' as int + (v - 52)) as char
    else if v == 62 then '+'
    else '/'
  }

  /** The 6-bit value an alphabet character stands for; None for any other
      character, the pad character '=' included. */
  function CharSextet(c: char): (r: Option<int>)
    ensures r.Some? ==> 0 <= r.value < 64 && SextetChar(r.value) == c
    ensures c == '=' ==> r.None?
  {
    if 'A' <= c <= 'Z' then Some(c as int - 'A' as int)
    else if 'a' <= c <= 'z' then Some(c as int - 'a' as int + 26)
    else if '0' <= c <= '9' then Some(c as int - '0' as int + 52)
    else if c == '+' then Some(62)
    else if c == '/' then Some(63)
    else None
  }

  lemma SextetRoundTrip(v: int)
    requires 0 <= v < 64
    ensures CharSextet(SextetChar(v)) == Some(v)
  {
  }

  predicate IsBase64Char(c: char) {
    CharSextet(c).Some? || c == '='
  }

  /** The four characters encoding the three bytes a, b, c. */
  function EncodeQuantum(a: int, b: int, c: int): (q: string)
    requires 0 <= a < 256 && 0 <= b < 256 && 0 <= c < 256
    ensures |q| == 4 && forall i :: 0 <= i < 4 ==> CharSextet(q[i]).Some?
  {
    var q := [SextetChar(a / 4), SextetChar((a % 4) * 16 + b / 16),
              SextetChar((b % 16) * 4 + c / 64), SextetChar(c % 64)];
    SextetRoundTrip(a / 4);
    SextetRoundTrip((a % 4) * 16 + b / 16);
    SextetRoundTrip((b % 16) * 4 + c / 64);
    SextetRoundTrip(c % 64);
    q
  }

  /** `base64_encode`: each group of three bytes becomes four alphabet
      characters, and a final group of one or two bytes is padded with '='. */
  function Encode(s: string): (t: string)
    requires IsByteString(s)
    ensures |t| == 4 * ((|s| + 2) / 3)
  {
    if |s| == 0 then ""
    else if |s| == 1 then
      var a := s[0] as int;
      [SextetChar(a / 4), SextetChar((a % 4) * 16), '=', '=']
    else if |s| == 2 then
      var a := s[0] as int;
      var b := s[1] as int;
      [SextetChar(a / 4), SextetChar((a % 4) * 16 + b / 16), SextetChar((b % 16) * 4), '=']
    else
      EncodeQuantum(s[0] as int, s[1] as int, s[2] as int) + Encode(s[3..])
  }

  /** `base64_encode` writes only alphabet characters and padding. */
  lemma {:induction false} EncodeAlphabet(s: string)
    requires IsByteString(s)
    ensures forall i :: 0 <= i < |Encode(s)| ==> IsBase64Char(Encode(s)[i])
  {
    var t := Encode(s);
    if |s| == 1 {
      var a := s[0] as int;
      SextetRoundTrip(a / 4);
      SextetRoundTrip((a % 4) * 16);
    } else if |s| == 2 {
      var a := s[0] as int;
      var b := s[1] as int;
      SextetRoundTrip(a / 4);
      SextetRoundTrip((a % 4) * 16 + b / 16);
      SextetRoundTrip((b % 16) * 4);
    } else if |s| >= 3 {
      var q := EncodeQuantum(s[0] as int, s[1] as int, s[2] as int);
      var rest := s[3..];
      assert IsByteString(rest) by {
        assert forall i :: 0 <= i < |rest| ==> rest[i] == s[i + 3];
      }
      EncodeAlphabet(rest);
      assert t == q + Encode(rest);
      forall i | 0 <= i < |t|
        ensures IsBase64Char(t[i])
      {
        if i >= 4 {
          assert t[i] == Encode(rest)[i - 4];
        }
      }
    }
  }

  /** Decodes one group of four characters; when `last` holds, the group may
      end in one or two pad characters. Leftover low bits of the last
      character before the padding are discarded. */
  function DecodeQuantum(q: string, last: bool): (r: Option<string>)
    requires |q| == 4
    ensures r.Some? ==> IsByteString(r.value) && 1 <= |r.value| <= 3
    ensures r.Some? && !last ==> |r.value| == 3
  {
    var s0 := CharSextet(q[0]);
    var s1 := CharSextet(q[1]);
    if s0.None? || s1.None? then None
    else
      var b0 := s0.value * 4 + s1.value / 16;
      if last && q[2] == '=' && q[3] == '=' then Some([b0 as char])
      else
        var s2 := CharSextet(q[2]);
        if s2.None? then None
        else
          var b1 := (s1.value % 16) * 16 + s2.value / 4;
          if last && q[3] == '=' then Some([b0 as char, b1 as char])
          else
            var s3 := CharSextet(q[3]);
            if s3.None? then None
            else Some([b0 as char, b1 as char, ((s2.value % 4) * 64 + s3.value) as char])
  }

  /** Strict decoding: None unless the text is a sequence of complete
      four-character groups, with padding only in the last group. */
  function Decode(t: string): (r: Option<string>)
    ensures r.Some? ==> IsByteString(r.value)
  {
    if |t| == 0 then Some("")
    else if |t| < 4 then None
    else if |t| == 4 then DecodeQuantum(t, true)
    else
      match DecodeQuantum(t[..4], false)
      case None => None
      case Some(head) =>
        match Decode(t[4..])
        case None => None
        case Some(tail) => Some(head + tail)
  }

  /** Splitting hi * 16 + lo back into hi and lo by division. */
  lemma Split16(hi: int, lo: int)
    requires 0 <= hi && 0 <= lo < 16
    ensures (hi * 16 + lo) / 16 == hi && (hi * 16 + lo) % 16 == lo
  {
  }

  /** Splitting hi * 4 + lo back into hi and lo by division. */
  lemma Split4(hi: int, lo: int)
    requires 0 <= hi && 0 <= lo < 4
    ensures (hi * 4 + lo) / 4 == hi && (hi * 4 + lo) % 4 == lo
  {
  }

  /** The arithmetic behind a quantum: the four sextets of three bytes give
      the bytes back. */
  lemma QuantumArith(a: int, b: int, c: int)
    requires 0 <= a < 256 && 0 <= b < 256 && 0 <= c < 256
    ensures (a / 4) * 4 + ((a % 4) * 16 + b / 16) / 16 == a
    ensures (((a % 4) * 16 + b / 16) % 16) * 16 + ((b % 16) * 4 + c / 64) / 4 == b
    ensures (((b % 16) * 4 + c / 64) % 4) * 64 + c % 64 == c
  {
    Split16(a % 4, b / 16);
    Split4(b % 16, c / 64);
  }

  /** The three bytes of a quantum survive encoding and decoding. */
  lemma QuantumRoundTrip(a: int, b: int, c: int, last: bool)
    requires 0 <= a < 256 && 0 <= b < 256 && 0 <= c < 256
    ensures DecodeQuantum(EncodeQuantum(a, b, c), last) == Some([a as char, b as char, c as char])
  {
    var x0, x1, x2, x3 := a / 4, (a % 4) * 16 + b / 16, (b % 16) * 4 + c / 64, c % 64;
    var q := EncodeQuantum(a, b, c);
    assert q == [SextetChar(x0), SextetChar(x1), SextetChar(x2), SextetChar(x3)];
    SextetRoundTrip(x0);
    SextetRoundTrip(x1);
    SextetRoundTrip(x2);
    SextetRoundTrip(x3);
    QuantumArith(a, b, c);
    assert q[2] != '=' && q[3] != '=';
  }

  /** Decoding a group padded with "==". */
  lemma DecodeOnePadded(x0: int, x1: int)
    requires 0 <= x0 < 64 && 0 <= x1 < 64
    ensures DecodeQuantum([SextetChar(x0), SextetChar(x1), '=', '='], true) ==
      Some([(x0 * 4 + x1 / 16) as char])
  {
    SextetRoundTrip(x0);
    SextetRoundTrip(x1);
  }

  /** Decoding a group padded with "=". */
  lemma DecodeTwoPadded(x0: int, x1: int, x2: int)
    requires 0 <= x0 < 64 && 0 <= x1 < 64 && 0 <= x2 < 64
    ensures DecodeQuantum([SextetChar(x0), SextetChar(x1), SextetChar(x2), '='], true) ==
      Some([(x0 * 4 + x1 / 16) as char, ((x1 % 16) * 16 + x2 / 4) as char])
  {
    SextetRoundTrip(x0);
    SextetRoundTrip(x1);
    SextetRoundTrip(x2);
    assert SextetChar(x2) != '=';
  }

  /** The arithmetic behind a padded group of one byte. */
  lemma OneByteArith(a: int)
    requires 0 <= a < 256
    ensures (a / 4) * 4 + ((a % 4) * 16) / 16 == a
  {
    Split16(a % 4, 0);
  }

  /** A final group of one byte, padded with "==", decodes to that byte. */
  lemma OneByteRoundTrip(s: string)
    requires IsByteString(s) && |s| == 1
    ensures Decode(Encode(s)) == Some(s)
  {
    var a := s[0] as int;
    var x0, x1 := a / 4, (a % 4) * 16;
    var t := [SextetChar(x0), SextetChar(x1), '=', '='];
    assert Encode(s) == t;
    assert Decode(t) == DecodeQuantum(t, true);
    OneByteArith(a);
    DecodeOnePadded(x0, x1);
    assert [a as char] == s;
  }

  /** The arithmetic behind a padded group of two bytes. */
  lemma TwoBytesArith(a: int, b: int)
    requires 0 <= a < 256 && 0 <= b < 256
    ensures (a / 4) * 4 + ((a % 4) * 16 + b / 16) / 16 == a
    ensures (((a % 4) * 16 + b / 16) % 16) * 16 + ((b % 16) * 4) / 4 == b
  {
    Split16(a % 4, b / 16);
    Split4(b % 16, 0);
  }

  /** The padded group `base64_encode` writes for two bytes. */
  lemma EncodeTwoBytes(s: string)
    requires IsByteString(s) && |s| == 2
    ensures
      var a, b := s[0] as int, s[1] as int;
      Encode(s) == [SextetChar(a / 4), SextetChar((a % 4) * 16 + b / 16), SextetChar((b % 16) * 4), '=']
  {
  }

  /** A text of one group is decoded as a final group. */
  lemma DecodeOneGroup(t: string)
    requires |t| == 4
    ensures Decode(t) == DecodeQuantum(t, true)
  {
  }

  /** A final group of two bytes, padded with "=", decodes to those bytes. */
  lemma TwoBytesRoundTrip(s: string)
    requires IsByteString(s) && |s| == 2
    ensures Decode(Encode(s)) == Some(s)
  {
    var a := s[0] as int;
    var b := s[1] as int;
    var x0, x1, x2 := a / 4, (a % 4) * 16 + b / 16, (b % 16) * 4;
    var t := Encode(s);
    EncodeTwoBytes(s);
    DecodeOneGroup(t);
    DecodeTwoPadded(x0, x1, x2);
    TwoBytesArith(a, b);
    assert x0 * 4 + x1 / 16 == a;
    assert (x1 % 16) * 16 + x2 / 4 == b;
    assert [a as char, b as char] == s;
  }

  /** Decoding what `base64_encode` produced gives the original bytes back. */
  lemma {:induction false} EncodeDecode(s: string)
    requires IsByteString(s)
    ensures Decode(Encode(s)) == Some(s)
  {
    if |s| == 1 {
      OneByteRoundTrip(s);
    } else if |s| == 2 {
      TwoBytesRoundTrip(s);
    } else if |s| >= 3 {
      var q := EncodeQuantum(s[0] as int, s[1] as int, s[2] as int);
      var rest := s[3..];
      assert IsByteString(rest) by {
        assert forall i :: 0 <= i < |rest| ==> rest[i] == s[i + 3];
      }
      var t := Encode(s);
      assert t == q + Encode(rest);
      QuantumRoundTrip(s[0] as int, s[1] as int, s[2] as int, |rest| == 0);
      assert s == [s[0] as int as char, s[1] as int as char, s[2] as int as char] + rest;
      if |rest| == 0 {
        assert Encode(rest) == "";
        assert t == q;
        assert s == [s[0] as int as char, s[1] as int as char, s[2] as int as char];
      } else {
        EncodeDecode(rest);
        assert t[..4] == q;
        assert t[4..] == Encode(rest);
      }
    }
  }
}
