/** Texts as bytes.  What matching needs of the encoding is a predicate; UTF-8 satisfies it. */
module Utf8 {
  import opened Prelude

  type Code = char -> seq<byte>

  predicate Ascii(c: char) {
    c as int < 0x80
  }

  predicate Continuation(b: byte) {
    0x80 <= b < 0xc0
  }

  /** ASCII characters are their own byte, the others start with a lead byte and go on with
      continuation bytes, and no character's bytes begin another's. */
  ghost predicate SelfSynchronising(code: Code) {
    && (forall c: char :: Shaped(c, code(c)))
    && (forall c: char, d: char :: code(c) <= code(d) ==> c == d)
  }

  predicate Shaped(c: char, bytes: seq<byte>) {
    if Ascii(c) then bytes == [c as int]
    else
      && bytes != [] && bytes[0] >= 0xc0
      && forall i :: 1 <= i < |bytes| ==> Continuation(bytes[i])
  }

  function Text(s: string, code: Code): seq<byte> {
    if s == [] then [] else code(s[0]) + Text(s[1..], code)
  }

  lemma EitherBegins(a: seq<byte>, b: seq<byte>, rest: seq<byte>)
    ensures a <= b + rest ==> a <= b || b <= a
  {
  }

  /** A text begins with the bytes of a character exactly when it begins with the character. */
  lemma BeginsWith(c: char, s: string, code: Code)
    requires SelfSynchronising(code)
    ensures code(c) <= Text(s, code) <==> s != [] && s[0] == c
    ensures s != [] ==> Text(s, code)[|code(s[0])|..] == Text(s[1..], code)
  {
    assert Shaped(c, code(c));
    if s != [] {
      assert Shaped(s[0], code(s[0]));
      EitherBegins(code(c), code(s[0]), Text(s[1..], code));
    }
  }

  // ----- The encoding -----

  function Encode(c: char): seq<byte> {
    var n := c as int;
    if n < 0x80 then [n]
    else if n < 0x800 then [0xc0 + n / 64, 0x80 + n % 64]
    else if n < 0x10000 then [0xe0 + n / 4096, 0x80 + n / 64 % 64, 0x80 + n % 64]
    else [0xf0 + n / 262144, 0x80 + n / 4096 % 64, 0x80 + n / 64 % 64, 0x80 + n % 64]
  }

  lemma Digits64(n: nat)
    ensures n == n / 64 * 64 + n % 64
    ensures n / 64 / 64 == n / 4096 && n / 4096 / 64 == n / 262144
  {
  }

  /** A number is determined by its digits to base 64. */
  lemma SameDigits(m: nat, n: nat)
    requires m % 64 == n % 64
    ensures m / 64 == n / 64 ==> m == n
    ensures m / 64 % 64 == n / 64 % 64 && m / 4096 == n / 4096 ==> m == n
    ensures m / 64 % 64 == n / 64 % 64 && m / 4096 % 64 == n / 4096 % 64 && m / 262144 == n / 262144 ==> m == n
  {
    Digits64(m);
    Digits64(n);
    Digits64(m / 64);
    Digits64(n / 64);
    Digits64(m / 4096);
    Digits64(n / 4096);
  }

  lemma EncodeShaped(c: char)
    ensures Shaped(c, Encode(c))
  {
  }

  /** The lead byte gives the length away. */
  lemma LeadGivesLength(c: char)
    ensures var n := c as int;
            Encode(c)[0] < 0x80 <==> n < 0x80
    ensures var n := c as int;
            Encode(c)[0] < 0xe0 <==> n < 0x800
    ensures var n := c as int;
            Encode(c)[0] < 0xf0 <==> n < 0x10000
  {
  }

  lemma NoneBeginsAnother(c: char, d: char)
    requires Encode(c) <= Encode(d)
    ensures c == d
  {
    LeadGivesLength(c);
    LeadGivesLength(d);
    assert forall i :: 0 <= i < |Encode(c)| ==> Encode(c)[i] == Encode(d)[i];
    SameBytes(c, d);
  }

  lemma SameBytes(c: char, d: char)
    requires |Encode(c)| == |Encode(d)| && forall i :: 0 <= i < |Encode(c)| ==> Encode(c)[i] == Encode(d)[i]
    ensures c == d
  {
    var m, n := c as int, d as int;
    var x, y := Encode(c), Encode(d);
    assert x[0] == y[0];
    if |x| > 1 {
      assert x[|x| - 1] == y[|x| - 1];
      SameDigits(m, n);
      if |x| == 3 {
        assert x[1] == y[1];
      } else if |x| == 4 {
        assert x[1] == y[1] && x[2] == y[2];
      }
    }
  }

  lemma EncodeIsSelfSynchronising()
    ensures SelfSynchronising(Encode)
  {
    forall c: char ensures Shaped(c, Encode(c)) { EncodeShaped(c); }
    forall c: char, d: char | Encode(c) <= Encode(d) ensures c == d { NoneBeginsAnother(c, d); }
  }
}
