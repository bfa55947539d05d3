/** Stored passwords: the argon2id string printed when a password is hashed, and the parser
    that verification runs on it.  The key derivation itself is a parameter. */
module Phc {
  import opened Prelude
  import Base64
  import Decimal
  import Trim

  const MEMORY := 64 * 1024
  const ITERATIONS := 3
  const PARALLELISM := 2
  const SALT_LENGTH := 16
  const KEY_LENGTH := 32
  const VERSION := 19

  const UINT32 := 0x1_0000_0000
  const UINT8 := 0x100
  const INT64 := 0x8000_0000_0000_0000

  datatype Cost = Cost(time: nat, memory: nat, parallelism: nat)

  /** Password, salt, cost and key length; no key when the derivation panics on the cost. */
  type Kdf = (seq<byte>, seq<byte>, Cost, nat) -> Option<seq<byte>>

  datatype Stored = Stored(cost: Cost, salt: seq<byte>, hash: seq<byte>)

  datatype Error = InvalidFormat | BadVersion | BadParams | BadSalt | BadHash | NoSalt | Panicked

  // ----- The printed form -----

  function Encoded(version: nat, stored: Stored): string {
    "$" + ("argon2id" + "$"
    + ("v=" + Decimal.Print(version) + "$"
    + (Params(stored.cost) + "$"
    + (Base64.Encode(stored.salt) + "$"
    + Base64.Encode(stored.hash)))))
  }

  function Params(cost: Cost): string {
    "m=" + Decimal.Print(cost.memory) + (",t=" + Decimal.Print(cost.time) + (",p=" + Decimal.Print(cost.parallelism)))
  }

  // ----- The parser -----

  /** The pieces between the separators. */
  function Split(s: string): (parts: seq<string>)
    ensures parts != []
  {
    if s == [] then [""]
    else
      var rest := Split(s[1..]);
      if s[0] == '$' then [""] + rest else [[s[0]] + rest[0]] + rest[1..]
  }

  /** What is left after the blanks; a newline is an error. */
  function SkipSpace(s: string): Option<string> {
    if s == [] then Some(s)
    else if s[0] == '\n' then None
    else if Trim.Space(s[0]) then SkipSpace(s[1..])
    else Some(s)
  }

  function Literal(s: string, text: string): Option<string> {
    if text <= s then Some(s[|text|..]) else None
  }

  /** How many digits the text starts with. */
  function Digits(s: string): (n: nat)
    ensures n <= |s|
    ensures forall i :: 0 <= i < n ==> Decimal.IsDigit(s[i])
  {
    if s == [] || !Decimal.IsDigit(s[0]) then 0 else 1 + Digits(s[1..])
  }

  /** A number below the bound, and what follows it. */
  function Unsigned(s: string, bound: nat): Option<(nat, string)> {
    var n := Digits(s);
    if n == 0 then None
    else
      var value := Decimal.ValueOf(s[..n]);
      if value < bound then Some((value, s[n..])) else None
  }

  function ScanUint(s: string, bound: nat): Option<(nat, string)> {
    var t := SkipSpace(s);
    if t.None? then None else Unsigned(t.value, bound)
  }

  /** The version may carry a sign. */
  function ScanInt(s: string): Option<(int, string)> {
    var t := SkipSpace(s);
    if t.None? || t.value == [] then None
    else if t.value[0] == '-' then
      var n := Unsigned(t.value[1..], INT64 + 1);
      if n.None? then None
      else
        var value: int := 0 - n.value.0;
        Some((value, n.value.1))
    else
      var n := Unsigned(if t.value[0] == '+' then t.value[1..] else t.value, INT64);
      if n.None? then None else Some((n.value.0, n.value.1))
  }

  function ScanVersion(s: string): Option<int> {
    var t := Literal(s, "v=");
    if t.None? then None
    else
      var n := ScanInt(t.value);
      if n.None? then None else Some(n.value.0)
  }

  /** A literal, then a number. */
  function Field(s: string, text: string, bound: nat): Option<(nat, string)> {
    var t := Literal(s, text);
    if t.None? then None else ScanUint(t.value, bound)
  }

  /** The three costs; whatever follows the last one is ignored. */
  function ScanParams(s: string): Option<Cost> {
    var m := Field(s, "m=", UINT32);
    if m.None? then None
    else
      var t := Field(m.value.1, ",t=", UINT32);
      if t.None? then None
      else
        var p := Field(t.value.1, ",p=", UINT8);
        if p.None? then None else Some(Cost(t.value.0, m.value.0, p.value.0))
  }

  function Parse(encoded: string): Result<Stored, Error> {
    var parts := Split(encoded);
    if |parts| != 6 || parts[1] != "argon2id" then Failure(InvalidFormat)
    else if ScanVersion(parts[2]).None? then Failure(BadVersion)
    else if ScanParams(parts[3]).None? then Failure(BadParams)
    else if Base64.Decode(parts[4]).None? then Failure(BadSalt)
    else if Base64.Decode(parts[5]).None? then Failure(BadHash)
    else Success(Stored(ScanParams(parts[3]).value, Base64.Decode(parts[4]).value, Base64.Decode(parts[5]).value))
  }

  /** What a parsed string says about a password. */
  function Compare(password: seq<byte>, stored: Stored, kdf: Kdf): Result<bool, Error> {
    match kdf(password, stored.salt, stored.cost, |stored.hash| % UINT32)
    case None => Failure(Panicked)
    case Some(key) => Success(key == stored.hash)
  }

  function Verdict(password: seq<byte>, encoded: string, kdf: Kdf): Result<bool, Error> {
    match Parse(encoded)
    case Failure(e) => Failure(e)
    case Success(stored) => Compare(password, stored, kdf)
  }

  /** Verification: a malformed string is an error, a wrong password is not. */
  method Verify(password: seq<byte>, encoded: string, kdf: Kdf) returns (r: Result<bool, Error>)
    ensures r == Verdict(password, encoded, kdf)
  {
    var parts := Split(encoded);
    if |parts| != 6 || parts[1] != "argon2id" {
      return Failure(InvalidFormat);
    }
    if ScanVersion(parts[2]).None? {
      return Failure(BadVersion);
    }
    var cost := ScanParams(parts[3]);
    if cost.None? {
      return Failure(BadParams);
    }
    var salt := Base64.Decode(parts[4]);
    if salt.None? {
      return Failure(BadSalt);
    }
    var hash := Base64.Decode(parts[5]);
    if hash.None? {
      return Failure(BadHash);
    }
    var computed := kdf(password, salt.value, cost.value, |hash.value| % UINT32);
    if computed.None? {
      return Failure(Panicked);
    }
    return Success(computed.value == hash.value);
  }

  // ----- Round trip -----

  ghost predicate InRange(cost: Cost) {
    cost.memory < UINT32 && cost.time < UINT32 && cost.parallelism < UINT8
  }

  lemma {:induction false} SplitAt(a: string, b: string)
    requires '$' !in a
    ensures Split(a + "$" + b) == [a] + Split(b)
  {
    var s := a + "$" + b;
    if a == [] {
      assert s[1..] == b;
    } else {
      SplitAt(a[1..], b);
      assert s[1..] == a[1..] + "$" + b;
      assert [a[0]] + a[1..] == a;
    }
  }

  lemma {:induction false} SplitWhole(a: string)
    requires '$' !in a
    ensures Split(a) == [a]
  {
    if a != [] {
      SplitWhole(a[1..]);
      assert [a[0]] + a[1..] == a;
    }
  }

  lemma {:induction false} DigitsOf(a: string, rest: string)
    requires forall i :: 0 <= i < |a| ==> Decimal.IsDigit(a[i])
    requires rest == [] || !Decimal.IsDigit(rest[0])
    ensures Digits(a + rest) == |a|
  {
    if a == [] {
      assert a + rest == rest;
    } else {
      DigitsOf(a[1..], rest);
      assert (a + rest)[1..] == a[1..] + rest;
    }
  }

  /** A printed number is read back, whatever follows that is not a digit. */
  lemma NumberReadsBack(n: nat, rest: string, bound: nat)
    requires n < bound
    requires rest == [] || !Decimal.IsDigit(rest[0])
    ensures SkipSpace(Decimal.Print(n) + rest) == Some(Decimal.Print(n) + rest)
    ensures Unsigned(Decimal.Print(n) + rest, bound) == Some((n, rest))
  {
    var a := Decimal.Print(n);
    Decimal.ValueOfPrint(n);
    DigitsOf(a, rest);
    assert (a + rest)[..|a|] == a && (a + rest)[|a|..] == rest;
    assert Decimal.IsDigit((a + rest)[0]) by { assert (a + rest)[0] == a[0]; }
  }

  lemma FieldReadsBack(text: string, n: nat, rest: string, bound: nat)
    requires n < bound
    requires rest == [] || !Decimal.IsDigit(rest[0])
    ensures Field(text + Decimal.Print(n) + rest, text, bound) == Some((n, rest))
  {
    var s := text + Decimal.Print(n) + rest;
    assert s[|text|..] == Decimal.Print(n) + rest;
    NumberReadsBack(n, rest, bound);
  }

  lemma VersionReadsBack(version: nat)
    requires version < INT64
    ensures ScanVersion("v=" + Decimal.Print(version)) == Some(version)
  {
    var a := Decimal.Print(version);
    assert ("v=" + a)[2..] == a == a + [];
    NumberReadsBack(version, [], INT64);
    Decimal.ValueOfPrint(version);
    assert Decimal.IsDigit(a[0]);
  }

  /** The costs are read back, whatever follows the last one that is not a digit. */
  lemma ParamsReadBack(cost: Cost, rest: string)
    requires InRange(cost)
    requires rest == [] || !Decimal.IsDigit(rest[0])
    ensures ScanParams(Params(cost) + rest) == Some(cost)
  {
    var last := ",p=" + Decimal.Print(cost.parallelism) + rest;
    var middle := ",t=" + Decimal.Print(cost.time) + last;
    assert Params(cost) + rest == "m=" + Decimal.Print(cost.memory) + middle;
    FieldReadsBack("m=", cost.memory, middle, UINT32);
    FieldReadsBack(",t=", cost.time, last, UINT32);
    FieldReadsBack(",p=", cost.parallelism, rest, UINT8);
  }

  lemma PrintedNumber(n: nat)
    ensures '$' !in Decimal.Print(n)
  {
    Decimal.ValueOfPrint(n);
  }

  lemma PrintedParams(cost: Cost)
    ensures '$' !in Params(cost)
  {
    PrintedNumber(cost.memory);
    PrintedNumber(cost.time);
    PrintedNumber(cost.parallelism);
  }

  lemma PrintedBytes(bytes: seq<byte>)
    ensures '$' !in Base64.Encode(bytes)
  {
    Base64.EncodedIsAlphabetic(bytes);
  }

  lemma SplitParts(a: string, b: string, c: string, d: string, e: string, f: string)
    requires '$' !in a && '$' !in b && '$' !in c && '$' !in d && '$' !in e && '$' !in f
    ensures Split(a + "$" + (b + "$" + (c + "$" + (d + "$" + (e + "$" + f))))) == [a, b, c, d, e, f]
  {
    SplitWhole(f);
    SplitAt(e, f);
    SplitAt(d, e + "$" + f);
    SplitAt(c, d + "$" + (e + "$" + f));
    SplitAt(b, c + "$" + (d + "$" + (e + "$" + f)));
    SplitAt(a, b + "$" + (c + "$" + (d + "$" + (e + "$" + f))));
  }

  lemma PartsOfEncoded(version: nat, stored: Stored)
    ensures Split(Encoded(version, stored)) ==
            ["", "argon2id", "v=" + Decimal.Print(version), Params(stored.cost),
             Base64.Encode(stored.salt), Base64.Encode(stored.hash)]
  {
    PrintedNumber(version);
    PrintedParams(stored.cost);
    PrintedBytes(stored.salt);
    PrintedBytes(stored.hash);
    SplitParts("", "argon2id", "v=" + Decimal.Print(version), Params(stored.cost),
               Base64.Encode(stored.salt), Base64.Encode(stored.hash));
    EncodedStartsEmpty(version, stored);
  }

  lemma EncodedStartsEmpty(version: nat, stored: Stored)
    ensures Encoded(version, stored) ==
            "" + "$" + ("argon2id" + "$" + ("v=" + Decimal.Print(version) + "$" + (Params(stored.cost) + "$"
            + (Base64.Encode(stored.salt) + "$" + Base64.Encode(stored.hash)))))
  {
    assert "" + "$" == "$";
  }

  lemma ParseParts(encoded: string, version: string, params: string, salt: string, hash: string)
    requires Split(encoded) == ["", "argon2id", version, params, salt, hash]
    requires ScanVersion(version).Some? && ScanParams(params).Some?
    requires Base64.Decode(salt).Some? && Base64.Decode(hash).Some?
    ensures Parse(encoded) == Success(Stored(ScanParams(params).value, Base64.Decode(salt).value, Base64.Decode(hash).value))
  {
  }

  /** Parsing undoes printing, for every salt, hash and cost in range and every version. */
  lemma ParseInvertsEncoded(version: nat, stored: Stored)
    requires version < INT64 && InRange(stored.cost)
    ensures Parse(Encoded(version, stored)) == Success(stored)
  {
    PartsOfEncoded(version, stored);
    VersionReadsBack(version);
    ParamsReadBack(stored.cost, []);
    assert Params(stored.cost) + [] == Params(stored.cost);
    Base64.DecodeInvertsEncode(stored.salt);
    Base64.DecodeInvertsEncode(stored.hash);
    ParseParts(Encoded(version, stored), "v=" + Decimal.Print(version), Params(stored.cost),
               Base64.Encode(stored.salt), Base64.Encode(stored.hash));
  }

  // ----- What is refused -----

  function Separators(s: string): nat {
    if s == [] then 0 else (if s[0] == '$' then 1 else 0) + Separators(s[1..])
  }

  lemma {:induction false} PiecesCount(s: string)
    ensures |Split(s)| == Separators(s) + 1
  {
    if s != [] {
      PiecesCount(s[1..]);
    }
  }

  /** A string without exactly five separators has the wrong format. */
  lemma FiveSeparators(encoded: string)
    ensures Separators(encoded) != 5 ==> Parse(encoded) == Failure(InvalidFormat)
  {
    PiecesCount(encoded);
  }

  /** Of six parts, the first fault decides: another algorithm, a version that does not begin
      with "v=", costs that do not begin with "m=", a salt or a hash that is not base 64. */
  lemma FirstFaultDecides(a: string, b: string, c: string, d: string, e: string, f: string)
    requires '$' !in a && '$' !in b && '$' !in c && '$' !in d && '$' !in e && '$' !in f
    ensures var r := Parse(a + "$" + (b + "$" + (c + "$" + (d + "$" + (e + "$" + f)))));
            if b != "argon2id" then r == Failure(InvalidFormat)
            else if !("v=" <= c) then r == Failure(BadVersion)
            else if ScanVersion(c).Some? && !("m=" <= d) then r == Failure(BadParams)
            else if ScanVersion(c).Some? && ScanParams(d).Some? && Base64.Decode(e).None? then r == Failure(BadSalt)
            else if ScanVersion(c).Some? && ScanParams(d).Some? && Base64.Decode(f).None? then r == Failure(BadHash)
            else r.Success? ==> Some(r.value.salt) == Base64.Decode(e) && Some(r.value.hash) == Base64.Decode(f)
                                && Some(r.value.cost) == ScanParams(d)
  {
    SplitParts(a, b, c, d, e, f);
  }

  lemma NumberTooLarge(n: nat, rest: string, bound: nat)
    requires rest == [] || !Decimal.IsDigit(rest[0])
    ensures Unsigned(Decimal.Print(n) + rest, bound) == if n < bound then Some((n, rest)) else None
  {
    var a := Decimal.Print(n);
    Decimal.ValueOfPrint(n);
    DigitsOf(a, rest);
    assert (a + rest)[..|a|] == a && (a + rest)[|a|..] == rest;
  }

  lemma FieldReadsOrRefuses(text: string, n: nat, rest: string, bound: nat)
    requires rest == [] || !Decimal.IsDigit(rest[0])
    ensures Field(text + Decimal.Print(n) + rest, text, bound) == if n < bound then Some((n, rest)) else None
  {
    var s := text + Decimal.Print(n) + rest;
    assert s[|text|..] == Decimal.Print(n) + rest;
    NumberTooLarge(n, rest, bound);
    PrintedHasNoBlank(n, rest);
  }

  lemma PrintedHasNoBlank(n: nat, rest: string)
    ensures SkipSpace(Decimal.Print(n) + rest) == Some(Decimal.Print(n) + rest)
  {
    Decimal.ValueOfPrint(n);
    assert (Decimal.Print(n) + rest)[0] == Decimal.Print(n)[0];
  }

  lemma {:induction false} BlanksAreSkipped(blanks: string, rest: string)
    requires forall i :: 0 <= i < |blanks| ==> Trim.Space(blanks[i]) && blanks[i] != '\n'
    ensures SkipSpace(blanks + rest) == SkipSpace(rest)
  {
    if blanks == [] {
      assert blanks + rest == rest;
    } else {
      assert (blanks + rest)[1..] == blanks[1..] + rest;
      BlanksAreSkipped(blanks[1..], rest);
    }
  }

  lemma PlainNumber(n: nat, rest: string)
    requires rest == [] || !Decimal.IsDigit(rest[0])
    ensures var text := Decimal.Print(n) + rest;
            ScanInt(text) == if n < 0x8000_0000_0000_0000 then Some((n, rest)) else None
  {
    var text := Decimal.Print(n) + rest;
    NumberTooLarge(n, rest, INT64);
    PrintedHasNoBlank(n, rest);
    Decimal.ValueOfPrint(n);
    assert text[0] == Decimal.Print(n)[0];
  }

  lemma AfterSign(sign: char, text: string)
    requires sign == '+' || sign == '-'
    ensures var s := [sign] + text;
            ScanInt(s) ==
            var n := Unsigned(text, if sign == '-' then INT64 + 1 else INT64);
            if n.None? then None
            else
              var value: int := if sign == '-' then 0 - n.value.0 else n.value.0;
              Some((value, n.value.1))
  {
    var s := [sign] + text;
    assert s[1..] == text && s[0] == sign;
    assert SkipSpace(s) == Some(s);
  }

  lemma SignedText(text: string, n: nat, rest: string, minus: int)
    requires Unsigned(text, INT64) == (if n < INT64 then Some((n, rest)) else None)
    requires Unsigned(text, INT64 + 1) == (if n < INT64 + 1 then Some((n, rest)) else None)
    requires minus + n == 0
    ensures ScanInt(['+'] + text) == (if n < 0x8000_0000_0000_0000 then Some((n, rest)) else None)
    ensures ScanInt(['-'] + text) == (if n <= 0x8000_0000_0000_0000 then Some((minus, rest)) else None)
  {
    AfterSign('+', text);
    AfterSign('-', text);
  }

  lemma SignedNumber(n: nat, rest: string, minus: int)
    requires (rest == [] || !Decimal.IsDigit(rest[0])) && minus + n == 0
    ensures var text := Decimal.Print(n) + rest;
            && ScanInt(['+'] + text) == (if n < 0x8000_0000_0000_0000 then Some((n, rest)) else None)
            && ScanInt(['-'] + text) == (if n <= 0x8000_0000_0000_0000 then Some((minus, rest)) else None)
  {
    NumberTooLarge(n, rest, INT64);
    NumberTooLarge(n, rest, INT64 + 1);
    SignedText(Decimal.Print(n) + rest, n, rest, minus);
  }

  /** A version may have blanks and a sign before it and anything but a digit after it, and is
      read exactly when it fits a signed 64-bit integer. */
  lemma VersionsRead(blanks: string, n: nat, rest: string, minus: int)
    requires forall i :: 0 <= i < |blanks| ==> Trim.Space(blanks[i]) && blanks[i] != '\n'
    requires (rest == [] || !Decimal.IsDigit(rest[0])) && minus + n == 0
    ensures var text := Decimal.Print(n) + rest;
            && ScanVersion("v=" + (blanks + text)) == (if n < 0x8000_0000_0000_0000 then Some(n) else None)
            && ScanVersion("v=" + (blanks + (['+'] + text))) == (if n < 0x8000_0000_0000_0000 then Some(n) else None)
            && ScanVersion("v=" + (blanks + (['-'] + text))) == (if n <= 0x8000_0000_0000_0000 then Some(minus) else None)
  {
    var text := Decimal.Print(n) + rest;
    ScanAfterBlanks(blanks, text);
    ScanAfterBlanks(blanks, ['+'] + text);
    ScanAfterBlanks(blanks, ['-'] + text);
    PlainNumber(n, rest);
    SignedNumber(n, rest, minus);
  }

  lemma ScanAfterBlanks(blanks: string, text: string)
    requires forall i :: 0 <= i < |blanks| ==> Trim.Space(blanks[i]) && blanks[i] != '\n'
    ensures ScanVersion("v=" + (blanks + text)) == if ScanInt(text).None? then None else Some(ScanInt(text).value.0)
  {
    assert ("v=" + (blanks + text))[2..] == blanks + text;
    BlanksAreSkipped(blanks, text);
  }

  /** Printed costs are read back exactly when memory and time fit 32 bits and the parallelism
      fits 8; otherwise they are refused. */
  lemma CostsAreReadExactlyInRange(cost: Cost)
    ensures ScanParams(Params(cost)) ==
            if cost.memory < 4_294_967_296 && cost.time < 4_294_967_296 && cost.parallelism < 256 then Some(cost) else None
  {
    var last := ",p=" + Decimal.Print(cost.parallelism);
    var middle := ",t=" + Decimal.Print(cost.time) + last;
    assert last == last + [];
    FieldReadsOrRefuses("m=", cost.memory, middle, UINT32);
    FieldReadsOrRefuses(",t=", cost.time, last, UINT32);
    FieldReadsOrRefuses(",p=", cost.parallelism, [], UINT8);
  }

  /** A derivation that succeeds gives a key of the length asked for. */
  ghost predicate GivesLength(kdf: Kdf) {
    forall password, salt, cost, n :: kdf(password, salt, cost, n).Some? ==> |kdf(password, salt, cost, n).value| == n
  }

  /** Whatever cost a password was hashed with, today's or not, verification accepts exactly
      the passwords that derive the same key. */
  lemma VerifyAcceptsExactlyTheSameKey(
    password: seq<byte>, attempt: seq<byte>, version: nat, salt: seq<byte>, cost: Cost, length: nat, kdf: Kdf)
    requires GivesLength(kdf) && InRange(cost) && length < UINT32 && version < INT64
    requires kdf(password, salt, cost, length).Some?
    ensures var key := kdf(password, salt, cost, length);
            Verdict(attempt, Encoded(version, Stored(cost, salt, key.value)), kdf) ==
            if kdf(attempt, salt, cost, length).None? then Failure(Panicked)
            else Success(kdf(attempt, salt, cost, length) == key)
  {
    var stored := Stored(cost, salt, kdf(password, salt, cost, length).value);
    ParseInvertsEncoded(version, stored);
    CompareKeys(password, attempt, stored, length, kdf);
    VerdictOf(attempt, Encoded(version, stored), stored, kdf);
  }

  lemma VerdictOf(attempt: seq<byte>, encoded: string, stored: Stored, kdf: Kdf)
    requires Parse(encoded) == Success(stored)
    ensures Verdict(attempt, encoded, kdf) == Compare(attempt, stored, kdf)
  {
  }

  lemma CompareKeys(password: seq<byte>, attempt: seq<byte>, stored: Stored, length: nat, kdf: Kdf)
    requires GivesLength(kdf) && length < UINT32
    requires kdf(password, stored.salt, stored.cost, length) == Some(stored.hash)
    ensures Compare(attempt, stored, kdf) ==
            var found := kdf(attempt, stored.salt, stored.cost, length);
            if found.None? then Failure(Panicked)
            else Success(found == kdf(password, stored.salt, stored.cost, length))
  {
    assert |stored.hash| == length;
  }

  // ----- Hashing -----

  lemma PrintDigit(n: nat, d: nat)
    requires d < 10
    ensures Decimal.Print(10 * n + d) == (if n == 0 then [] else Decimal.Print(n)) + [Decimal.DigitChar(d)]
  {
  }

  lemma PrintedMemory()
    ensures Decimal.Print(MEMORY) == "65536"
  {
    PrintDigit(6553, 6);
    PrintDigit(655, 3);
    PrintDigit(65, 5);
    PrintDigit(6, 5);
  }

  /** The head of the string, as it is documented. */
  lemma TodaysHead()
    ensures Decimal.Print(VERSION) == "19"
    ensures Params(Cost(ITERATIONS, MEMORY, PARALLELISM)) == "m=65536,t=3,p=2"
  {
    PrintDigit(1, 9);
    PrintedMemory();
    assert Decimal.Print(ITERATIONS) == "3" && Decimal.Print(PARALLELISM) == "2";
    assert "m=" + "65536" + (",t=" + "3" + (",p=" + "2")) == "m=65536,t=3,p=2";
  }

  /** Hashing a password; `random` is the salt drawn, if any could be.  The string has the
      documented form, parses back to what went into it, and verifies the password. */
  method Hash(password: seq<byte>, random: Option<seq<byte>>, kdf: Kdf) returns (r: Result<string, Error>)
    requires random.Some? ==> |random.value| == SALT_LENGTH
    ensures random.None? ==> r == Failure(NoSalt)
    ensures random.Some? ==>
              var cost := Cost(ITERATIONS, MEMORY, PARALLELISM);
              var key := kdf(password, random.value, cost, KEY_LENGTH);
              && (key.None? <==> r == Failure(Panicked))
              && (key.Some? <==> r.Success?)
              && (r.Success? ==>
                    && r.value ==
                       "$argon2id$v=19$m=65536,t=3,p=2$" + (Base64.Encode(random.value) + "$" + Base64.Encode(key.value))
                    && Parse(r.value) == Success(Stored(cost, random.value, key.value)))
    ensures r.Success? && GivesLength(kdf) ==> Verdict(password, r.value, kdf) == Success(true)
  {
    if random.None? {
      return Failure(NoSalt);
    }
    var cost := Cost(ITERATIONS, MEMORY, PARALLELISM);
    var hash := kdf(password, random.value, cost, KEY_LENGTH);
    if hash.None? {
      return Failure(Panicked);
    }
    ghost var stored := Stored(cost, random.value, hash.value);
    ParseInvertsEncoded(VERSION, stored);
    HashedForm(stored);
    HashedIsAccepted(password, stored, kdf);
    return Success(Encoded(VERSION, Stored(cost, random.value, hash.value)));
  }

  lemma Glue(a: string, b: string, ab: string, rest: string)
    requires ab == a + b
    ensures a + (b + rest) == ab + rest
  {
  }

  lemma VersionAndCost(rest: string)
    ensures "v=19$" + ("m=65536,t=3,p=2$" + rest) == "v=19$m=65536,t=3,p=2$" + rest
  {
    Glue("v=19$", "m=65536,t=3,p=2$", "v=19$m=65536,t=3,p=2$", rest);
  }

  lemma NameAndVersion(rest: string)
    ensures "argon2id$" + ("v=19$m=65536,t=3,p=2$" + rest) == "argon2id$v=19$m=65536,t=3,p=2$" + rest
  {
    Glue("argon2id$", "v=19$m=65536,t=3,p=2$", "argon2id$v=19$m=65536,t=3,p=2$", rest);
  }

  lemma LeadingSeparator(rest: string)
    ensures "$" + ("argon2id$v=19$m=65536,t=3,p=2$" + rest) == "$argon2id$v=19$m=65536,t=3,p=2$" + rest
  {
    Glue("$", "argon2id$v=19$m=65536,t=3,p=2$", "$argon2id$v=19$m=65536,t=3,p=2$", rest);
  }

  lemma HashedForm(stored: Stored)
    requires stored.cost == Cost(ITERATIONS, MEMORY, PARALLELISM)
    ensures Encoded(VERSION, stored) ==
            "$argon2id$v=19$m=65536,t=3,p=2$" + (Base64.Encode(stored.salt) + "$" + Base64.Encode(stored.hash))
  {
    var rest := Base64.Encode(stored.salt) + "$" + Base64.Encode(stored.hash);
    TodaysHead();
    EncodedHead(VERSION, stored);
    assert "v=" + "19" + "$" == "v=19$" && "m=65536,t=3,p=2" + "$" == "m=65536,t=3,p=2$";
    VersionAndCost(rest);
    NameAndVersion(rest);
    LeadingSeparator(rest);
  }

  lemma EncodedHead(version: nat, stored: Stored)
    ensures Encoded(version, stored) ==
            "$" + ("argon2id$" + ("v=" + Decimal.Print(version) + "$" + (Params(stored.cost) + "$"
            + (Base64.Encode(stored.salt) + "$" + Base64.Encode(stored.hash)))))
  {
    assert "argon2id" + "$" == "argon2id$";
  }

  lemma HashedIsAccepted(password: seq<byte>, stored: Stored, kdf: Kdf)
    requires stored.cost == Cost(ITERATIONS, MEMORY, PARALLELISM)
    requires kdf(password, stored.salt, stored.cost, KEY_LENGTH) == Some(stored.hash)
    ensures GivesLength(kdf) ==> Verdict(password, Encoded(VERSION, stored), kdf) == Success(true)
  {
    if GivesLength(kdf) {
      VerifyAcceptsExactlyTheSameKey(password, password, VERSION, stored.salt, stored.cost, KEY_LENGTH, kdf);
    }
  }
}
