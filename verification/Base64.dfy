/** Base 64 text (section 4 of RFC 4648) without padding (section 3.2), as Go's raw standard
    encoding reads and writes it: the reader skips line breaks and does not look at the bits
    left over in the last character. */
module Base64 {
  import opened Prelude

  type sextet = x: int | 0 <= x < 64

  function Char(v: sextet): char {
    if v < 26 then ('A' as int + v) as char
    else if v < 52 then ('a' as int + v - 26) as char
    else if v < 62 then ('0' as int + v - 52) as char
    else if v == 62 then '+'
    else '/'
  }

  function Value(c: char): Option<sextet> {
    if 'A' <= c <= 'Z' then Some(c as int - 'A' as int)
    else if 'a' <= c <= 'z' then Some(c as int - 'a' as int + 26)
    else if '0' <= c <= '9' then Some(c as int - '0' as int + 52)
    else if c == '+' then Some(62)
    else if c == '/' then Some(63)
    else None
  }

  type Cutter = (byte, byte, byte) -> (sextet, sextet, sextet, sextet)
  type Joiner = (sextet, sextet, sextet, sextet) -> (byte, byte, byte)

  /** Three bytes are twenty-four bits are four groups of six. */
  function Cut(x: byte, y: byte, z: byte): (sextet, sextet, sextet, sextet) {
    (x / 4, x % 4 * 16 + y / 16, y % 16 * 4 + z / 64, z % 64)
  }

  function Join(a: sextet, b: sextet, c: sextet, d: sextet): (byte, byte, byte) {
    (a * 4 + b / 16, b % 16 * 16 + c / 4, c % 4 * 64 + d)
  }

  /** The six-bit groups of the input, the last one filled up with zero bits. */
  function Sextets(bytes: seq<byte>, cut: Cutter): seq<sextet> {
    if bytes == [] then []
    else if |bytes| == 1 then
      var g := cut(bytes[0], 0, 0);
      [g.0, g.1]
    else if |bytes| == 2 then
      var g := cut(bytes[0], bytes[1], 0);
      [g.0, g.1, g.2]
    else
      var g := cut(bytes[0], bytes[1], bytes[2]);
      [g.0, g.1, g.2, g.3] + Sextets(bytes[3..], cut)
  }

  function Chars(groups: seq<sextet>): (s: string)
    ensures |s| == |groups|
  {
    if groups == [] then [] else [Char(groups[0])] + Chars(groups[1..])
  }

  function Encode(bytes: seq<byte>): string {
    Chars(Sextets(bytes, Cut))
  }

  predicate IsBreak(c: char) {
    c == '\r' || c == '\n'
  }

  function WithoutBreaks(s: string): string {
    if s == [] then [] else (if IsBreak(s[0]) then [] else [s[0]]) + WithoutBreaks(s[1..])
  }

  function Values(s: string): Option<seq<sextet>> {
    if s == [] then Some([])
    else
      var rest := Values(s[1..]);
      if Value(s[0]).None? || rest.None? then None else Some([Value(s[0]).value] + rest.value)
  }

  /** Four groups give three bytes; two or three at the end give one or two; a single one is
      an error. */
  function Bytes(groups: seq<sextet>, join: Joiner): Option<seq<byte>> {
    if groups == [] then Some([])
    else if |groups| == 1 then None
    else if |groups| == 2 then Some([join(groups[0], groups[1], 0, 0).0])
    else if |groups| == 3 then
      var b := join(groups[0], groups[1], groups[2], 0);
      Some([b.0, b.1])
    else
      var b, rest := join(groups[0], groups[1], groups[2], groups[3]), Bytes(groups[4..], join);
      if rest.None? then None else Some([b.0, b.1, b.2] + rest.value)
  }

  function Decode(s: string): Option<seq<byte>> {
    var groups := Values(WithoutBreaks(s));
    if groups.None? then None else Bytes(groups.value, Join)
  }

  // ----- Reading back what was written -----

  /** Cutting and joining undo each other, and zero bytes at the end make zero groups. */
  ghost predicate Inverse(cut: Cutter, join: Joiner) {
    && (forall x: byte, y: byte, z: byte :: join(cut(x, y, z).0, cut(x, y, z).1, cut(x, y, z).2, cut(x, y, z).3) == (x, y, z))
    && (forall a: sextet, b: sextet, c: sextet, d: sextet :: cut(join(a, b, c, d).0, join(a, b, c, d).1, join(a, b, c, d).2) == (a, b, c, d))
    && (forall x: byte :: cut(x, 0, 0).2 == 0 && cut(x, 0, 0).3 == 0)
    && (forall x: byte, y: byte :: cut(x, y, 0).3 == 0)
    && (forall a: sextet, b: sextet :: join(a, b, 0, 0).2 == 0)
  }

  lemma Radix4(q: int, r: int)
    requires 0 <= r < 4
    ensures (q * 4 + r) / 4 == q && (q * 4 + r) % 4 == r
  {
  }

  lemma Radix16(q: int, r: int)
    requires 0 <= r < 16
    ensures (q * 16 + r) / 16 == q && (q * 16 + r) % 16 == r
  {
  }

  lemma Radix64(q: int, r: int)
    requires 0 <= r < 64
    ensures (q * 64 + r) / 64 == q && (q * 64 + r) % 64 == r
  {
  }

  lemma JoinInvertsCut(x: byte, y: byte, z: byte)
    ensures Join(Cut(x, y, z).0, Cut(x, y, z).1, Cut(x, y, z).2, Cut(x, y, z).3) == (x, y, z)
  {
    Radix16(x % 4, y / 16);
    Radix4(y % 16, z / 64);
  }

  lemma CutInvertsJoin(a: sextet, b: sextet, c: sextet, d: sextet)
    ensures Cut(Join(a, b, c, d).0, Join(a, b, c, d).1, Join(a, b, c, d).2) == (a, b, c, d)
  {
    Radix4(a, b / 16);
    Radix16(b % 16, c / 4);
    Radix64(c % 4, d);
  }

  lemma CutAndJoin()
    ensures Inverse(Cut, Join)
  {
    forall x: byte, y: byte, z: byte
      ensures Join(Cut(x, y, z).0, Cut(x, y, z).1, Cut(x, y, z).2, Cut(x, y, z).3) == (x, y, z)
    {
      JoinInvertsCut(x, y, z);
    }
    forall a: sextet, b: sextet, c: sextet, d: sextet
      ensures Cut(Join(a, b, c, d).0, Join(a, b, c, d).1, Join(a, b, c, d).2) == (a, b, c, d)
    {
      CutInvertsJoin(a, b, c, d);
    }
  }

  lemma {:induction false} BytesOfSextets(bytes: seq<byte>, cut: Cutter, join: Joiner)
    requires Inverse(cut, join)
    ensures Bytes(Sextets(bytes, cut), join) == Some(bytes)
  {
    if |bytes| == 1 {
      assert bytes == [bytes[0]];
    } else if |bytes| == 2 {
      assert bytes == [bytes[0], bytes[1]];
    } else if |bytes| >= 3 {
      BytesOfSextets(bytes[3..], cut, join);
      assert Sextets(bytes, cut)[4..] == Sextets(bytes[3..], cut);
      assert bytes == [bytes[0], bytes[1], bytes[2]] + bytes[3..];
    }
  }

  lemma CharValue(v: sextet)
    ensures Value(Char(v)) == Some(v)
  {
  }

  lemma {:induction false} ValuesOfChars(groups: seq<sextet>)
    ensures Values(Chars(groups)) == Some(groups)
    ensures forall i :: 0 <= i < |groups| ==> Value(Chars(groups)[i]).Some?
  {
    if groups != [] {
      ValuesOfChars(groups[1..]);
      CharValue(groups[0]);
      assert Chars(groups)[1..] == Chars(groups[1..]);
      assert groups == [groups[0]] + groups[1..];
    }
  }

  lemma {:induction false} NoBreaksNoChange(s: string)
    requires forall i :: 0 <= i < |s| ==> !IsBreak(s[i])
    ensures WithoutBreaks(s) == s
  {
    if s != [] {
      NoBreaksNoChange(s[1..]);
    }
  }

  /** Encoded text consists of the sixty-four characters. */
  lemma EncodedIsAlphabetic(bytes: seq<byte>)
    ensures forall i :: 0 <= i < |Encode(bytes)| ==> Value(Encode(bytes)[i]).Some?
    ensures WithoutBreaks(Encode(bytes)) == Encode(bytes)
  {
    ValuesOfChars(Sextets(bytes, Cut));
    NoBreaksNoChange(Encode(bytes));
  }

  /** Decoding undoes encoding. */
  lemma DecodeInvertsEncode(bytes: seq<byte>)
    ensures Decode(Encode(bytes)) == Some(bytes)
  {
    EncodedIsAlphabetic(bytes);
    ValuesOfChars(Sextets(bytes, Cut));
    CutAndJoin();
    BytesOfSextets(bytes, Cut, Join);
  }

  // ----- Which texts are canonical -----

  /** No bit is set beyond the last byte. */
  predicate NoSpareBits(groups: seq<sextet>, join: Joiner) {
    if |groups| >= 4 then NoSpareBits(groups[4..], join)
    else
      && (|groups| == 2 ==> join(groups[0], groups[1], 0, 0).1 == 0)
      && (|groups| == 3 ==> join(groups[0], groups[1], groups[2], 0).2 == 0)
  }

  lemma {:induction false} SextetsOfBytes(groups: seq<sextet>, cut: Cutter, join: Joiner)
    requires Inverse(cut, join) && Bytes(groups, join).Some?
    ensures Sextets(Bytes(groups, join).value, cut) == groups <==> NoSpareBits(groups, join)
  {
    var bytes := Bytes(groups, join).value;
    if |groups| >= 4 {
      SextetsOfBytes(groups[4..], cut, join);
      assert bytes[3..] == Bytes(groups[4..], join).value;
      assert Sextets(bytes, cut)[4..] == Sextets(bytes[3..], cut);
      assert groups == [groups[0], groups[1], groups[2], groups[3]] + groups[4..];
    } else if |groups| == 3 {
      assert groups == [groups[0], groups[1], groups[2]];
    } else if |groups| == 2 {
      assert groups == [groups[0], groups[1]];
    }
  }

  lemma ValueChar(c: char)
    requires Value(c).Some?
    ensures Char(Value(c).value) == c
  {
  }

  lemma {:induction false} CharsOfValues(s: string)
    requires Values(s).Some?
    ensures Chars(Values(s).value) == s
  {
    if s != [] {
      CharsOfValues(s[1..]);
      ValueChar(s[0]);
      assert Values(s).value[1..] == Values(s[1..]).value;
    }
  }

  /** A text that decodes is the encoding of what it decodes to exactly when it has no line
      break and no spare bit set. */
  lemma EncodeInvertsDecodeExactlyWhenCanonical(s: string)
    requires Decode(s).Some?
    ensures s == Encode(Decode(s).value) <==>
            WithoutBreaks(s) == s && NoSpareBits(Values(WithoutBreaks(s)).value, Join)
  {
    var bytes, groups := Decode(s).value, Values(WithoutBreaks(s)).value;
    CutAndJoin();
    SextetsOfBytes(groups, Cut, Join);
    EncodedIsAlphabetic(bytes);
    ValuesOfChars(Sextets(bytes, Cut));
    CharsOfValues(WithoutBreaks(s));
  }

  // ----- Which texts are read -----

  predicate InAlphabet(c: char) {
    'A' <= c <= 'Z' || 'a' <= c <= 'z' || '0' <= c <= '9' || c == '+' || c == '/'
  }

  lemma {:induction false} BytesExist(groups: seq<sextet>, join: Joiner)
    ensures Bytes(groups, join).Some? <==> |groups| % 4 != 1
  {
    if |groups| >= 4 {
      BytesExist(groups[4..], join);
    }
  }

  /** The number of characters that are not line breaks. */
  function Solid(s: string): nat {
    if s == [] then 0 else (if s[0] == '\r' || s[0] == '\n' then 0 else 1) + Solid(s[1..])
  }

  lemma {:induction false} ValuesExist(s: string)
    ensures Values(WithoutBreaks(s)).Some? <==>
            forall i :: 0 <= i < |s| ==> InAlphabet(s[i]) || s[i] == '\r' || s[i] == '\n'
    ensures Values(WithoutBreaks(s)).Some? ==> |Values(WithoutBreaks(s)).value| == Solid(s)
  {
    if s != [] {
      ValuesExist(s[1..]);
      assert WithoutBreaks(s) == (if IsBreak(s[0]) then [] else [s[0]]) + WithoutBreaks(s[1..]);
      if IsBreak(s[0]) {
        assert WithoutBreaks(s) == WithoutBreaks(s[1..]);
      } else {
        assert WithoutBreaks(s)[1..] == WithoutBreaks(s[1..]) && WithoutBreaks(s)[0] == s[0];
      }
      assert forall i :: 1 <= i < |s| ==> s[i] == s[1..][i - 1];
      assert forall i :: 0 <= i < |s| - 1 ==> s[1..][i] == s[i + 1];
    }
  }

  /** Exactly the texts of letters, digits, plus signs, slashes and line breaks decode, unless
      one character is left over after the groups of four. */
  lemma DecodesExactly(s: string)
    ensures Decode(s).Some? <==>
            && (forall i :: 0 <= i < |s| ==> InAlphabet(s[i]) || s[i] == '\r' || s[i] == '\n')
            && Solid(s) % 4 != 1
  {
    ValuesExist(s);
    if Values(WithoutBreaks(s)).Some? {
      BytesExist(Values(WithoutBreaks(s)).value, Join);
    }
  }
}
