/** Hexadecimal text as the standard codec reads and writes it: lower case out, either
    case in, an error for an odd length or a foreign character.  Text is kept as the
    bytes of its characters. */
module Hex {
  import opened Prelude

  function Digit(v: int): byte
    requires 0 <= v < 16
  {
    if v < 10 then 48 + v else 87 + v
  }

  function Value(c: byte): Option<int> {
    if 48 <= c <= 57 then Some(c - 48)
    else if 97 <= c <= 102 then Some(c - 87)
    else if 65 <= c <= 70 then Some(c - 55)
    else None
  }

  function Encode(b: seq<byte>): (s: seq<byte>)
    ensures |s| == 2 * |b|
  {
    if b == [] then [] else [Digit(b[0] / 16), Digit(b[0] % 16)] + Encode(b[1..])
  }

  function Decode(s: seq<byte>): (r: Option<seq<byte>>)
    ensures r.Some? ==> |s| == 2 * |r.value|
  {
    if s == [] then Some([])
    else if |s| == 1 || Value(s[0]).None? || Value(s[1]).None? then None
    else
      var rest := Decode(s[2..]);
      if rest.None? then None
      else Some([16 * Nibble(s[0]) + Nibble(s[1])] + rest.value)
  }

  function Nibble(c: byte): (v: int)
    requires Value(c).Some?
    ensures 0 <= v < 16
  {
    Value(c).value
  }

  /** Decoding undoes encoding. */
  lemma {:induction false} DecodeInvertsEncode(b: seq<byte>)
    ensures Decode(Encode(b)) == Some(b)
  {
    if b != [] {
      var s := Encode(b);
      assert s[2..] == Encode(b[1..]);
      DecodeInvertsEncode(b[1..]);
      assert Value(s[0]) == Some(b[0] / 16) && Value(s[1]) == Some(b[0] % 16);
      assert Decode(s).value == [b[0]] + b[1..] == b;
    }
  }

  /** A hexadecimal digit: 0 to 9, a to f or A to F. */
  predicate IsDigit(c: byte) {
    48 <= c <= 57 || 97 <= c <= 102 || 65 <= c <= 70
  }

  /** Exactly the texts of even length made of hexadecimal digits decode. */
  lemma {:induction false} DecodesExactlyHexText(s: seq<byte>)
    ensures Decode(s).Some? <==> |s| % 2 == 0 && forall i :: 0 <= i < |s| ==> IsDigit(s[i])
  {
    if |s| >= 2 {
      DecodesExactlyHexText(s[2..]);
      assert (forall i :: 0 <= i < |s| ==> IsDigit(s[i])) <==>
             IsDigit(s[0]) && IsDigit(s[1]) && (forall i :: 0 <= i < |s[2..]| ==> IsDigit(s[2..][i])) by {
        assert forall i :: 2 <= i < |s| ==> s[i] == s[2..][i - 2];
        assert forall i :: 0 <= i < |s| - 2 ==> s[2..][i] == s[i + 2];
      }
    }
  }
}
