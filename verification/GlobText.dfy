/** The matcher works on bytes; its documentation speaks of characters.  This relates the two:
    matching the bytes of a pattern with the bytes of a subject, and matching characters. */
module GlobText {
  import opened Prelude
  import opened Glob
  import opened Utf8

  /** Matching as the service does it, on the bytes of both texts. */
  ghost predicate ByteMatch(pattern: string, s: string, code: Code) {
    Matches(Tokens(Text(pattern, code), BYTES), Text(s, code), BYTES)
  }

  /** Matching as it is documented. */
  ghost predicate CharMatch(pattern: string, s: string) {
    Matches(Tokens(pattern, CHARS), s, CHARS)
  }

  predicate AllAscii(s: string) {
    forall i :: 0 <= i < |s| ==> Ascii(s[i])
  }

  // ----- Tokens of an encoded pattern -----

  function Lits(bytes: seq<byte>): seq<Token<byte>> {
    if bytes == [] then [] else [Lit(bytes[0])] + Lits(bytes[1..])
  }

  lemma ConsAssoc<X>(x: X, ys: seq<X>, zs: seq<X>)
    ensures [x] + ys + zs == [x] + (ys + zs)
  {
  }

  lemma LiteralFirst(b: byte, rest: seq<byte>)
    requires b != BYTES.star && b != BYTES.question
    ensures Tokens([b] + rest, BYTES) == [Lit(b)] + Tokens(rest, BYTES)
  {
    assert ([b] + rest)[1..] == rest;
  }

  lemma {:induction false} TokensOfLiterals(bytes: seq<byte>, rest: seq<byte>)
    requires BYTES.star !in bytes && BYTES.question !in bytes
    ensures Tokens(bytes + rest, BYTES) == Lits(bytes) + Tokens(rest, BYTES)
  {
    if bytes == [] {
      assert bytes + rest == rest;
      assert [] + Tokens(rest, BYTES) == Tokens(rest, BYTES);
    } else {
      var b, tail := bytes[0], bytes[1..];
      TokensOfLiterals(tail, rest);
      LiteralFirst(b, tail + rest);
      ConsAssoc(b, tail, rest);
      assert bytes == [b] + tail;
      ConsAssoc(Lit(b), Lits(tail), Tokens(rest, BYTES));
    }
  }

  lemma {:induction false} MatchesLits(bytes: seq<byte>, ts: seq<Token<byte>>, u: seq<byte>)
    ensures Matches(Lits(bytes) + ts, u, BYTES) <==> bytes <= u && Matches(ts, u[|bytes|..], BYTES)
  {
    if bytes == [] {
      assert Lits(bytes) + ts == ts && u[0..] == u;
    } else {
      var rest := Lits(bytes[1..]) + ts;
      assert Lits(bytes) + ts == [Lit(bytes[0])] + rest;
      MatchesChar(Lit(bytes[0]), rest, u, BYTES);
      if u != [] {
        MatchesLits(bytes[1..], ts, u[1..]);
        assert bytes <= u <==> u[0] == bytes[0] && bytes[1..] <= u[1..];
        assert bytes <= u ==> u[1..][|bytes| - 1..] == u[|bytes|..];
      }
    }
  }

  /** A literal character of the pattern becomes literal bytes. */
  lemma LiteralStep(pattern: string, u: seq<byte>, code: Code)
    requires SelfSynchronising(code) && pattern != "" && pattern[0] != '*' && pattern[0] != '?'
    ensures Matches(Tokens(Text(pattern, code), BYTES), u, BYTES) <==>
            && code(pattern[0]) <= u
            && Matches(Tokens(Text(pattern[1..], code), BYTES), u[|code(pattern[0])|..], BYTES)
  {
    var bytes := code(pattern[0]);
    assert Shaped(pattern[0], bytes);
    TokensOfLiterals(bytes, Text(pattern[1..], code));
    MatchesLits(bytes, Tokens(Text(pattern[1..], code), BYTES), u);
  }

  /** One star and two stars are the same on both sides. */
  function WildLength(pattern: string): nat {
    if StarAt(pattern, '*', 1) then 2 else 1
  }

  function Wild<T>(pattern: string): Token<T> {
    if StarAt(pattern, '*', 1) then Deep else Star
  }

  lemma OneStar<T>(rest: seq<T>, a: Alphabet<T>)
    requires !StarAt(rest, a.star, 0)
    ensures Tokens([a.star] + rest, a) == [Star] + Tokens(rest, a)
  {
    var all := [a.star] + rest;
    assert all[1..] == rest;
    assert StarAt(all, a.star, 1) == StarAt(rest, a.star, 0);
  }

  lemma TwoStars<T>(rest: seq<T>, a: Alphabet<T>)
    ensures Tokens([a.star, a.star] + rest, a) == [Deep] + Tokens(rest, a)
  {
    var all := [a.star, a.star] + rest;
    assert all[2..] == rest && StarAt(all, a.star, 1);
  }

  lemma TextCons(c: char, s: string, code: Code)
    ensures Text([c] + s, code) == code(c) + Text(s, code)
  {
    assert ([c] + s)[1..] == s;
  }

  lemma StarsStayStars(s: string, code: Code)
    requires SelfSynchronising(code)
    ensures StarAt(Text(s, code), BYTES.star, 0) <==> StarAt(s, '*', 0)
  {
    if s != "" {
      assert Shaped(s[0], code(s[0]));
    }
  }

  lemma OneStarText(rest: string, code: Code)
    requires SelfSynchronising(code) && !StarAt(rest, '*', 0)
    ensures Tokens(Text(['*'] + rest, code), BYTES) == [Star] + Tokens(Text(rest, code), BYTES)
  {
    assert Shaped('*', code('*'));
    TextCons('*', rest, code);
    StarsStayStars(rest, code);
    OneStar(Text(rest, code), BYTES);
  }

  lemma TwoStarsText(rest: string, code: Code)
    requires SelfSynchronising(code)
    ensures Tokens(Text(['*'] + (['*'] + rest), code), BYTES) == [Deep] + Tokens(Text(rest, code), BYTES)
  {
    assert Shaped('*', code('*'));
    TextCons('*', rest, code);
    TextCons('*', ['*'] + rest, code);
    var bytes := Text(rest, code);
    assert [BYTES.star] + ([BYTES.star] + bytes) == [BYTES.star, BYTES.star] + bytes;
    TwoStars(bytes, BYTES);
  }

  lemma CharWild(pattern: string)
    requires pattern != "" && pattern[0] == '*'
    ensures WildLength(pattern) <= |pattern|
    ensures Tokens(pattern, CHARS) == [Wild(pattern)] + Tokens(pattern[WildLength(pattern)..], CHARS)
  {
  }

  lemma LeadingStars(pattern: string)
    requires pattern != "" && pattern[0] == '*'
    ensures pattern == ['*'] + pattern[1..]
    ensures StarAt(pattern, '*', 1) <==> StarAt(pattern[1..], '*', 0)
    ensures StarAt(pattern, '*', 1) ==> pattern[1..] == ['*'] + pattern[2..]
  {
  }

  lemma ByteWild(pattern: string, code: Code)
    requires SelfSynchronising(code) && pattern != "" && pattern[0] == '*'
    ensures WildLength(pattern) <= |pattern|
    ensures Tokens(Text(pattern, code), BYTES) ==
            [Wild(pattern)] + Tokens(Text(pattern[WildLength(pattern)..], code), BYTES)
  {
    LeadingStars(pattern);
    if StarAt(pattern, '*', 1) {
      TwoStarsText(pattern[2..], code);
    } else {
      OneStarText(pattern[1..], code);
    }
  }

  // ----- Wildcards -----

  /** A wildcard takes nothing, or one unit and goes on. */
  lemma WildStep<T(!new)>(t: Token<T>, ts: seq<Token<T>>, u: seq<T>, a: Alphabet<T>)
    requires t.Star? || t.Deep?
    ensures Matches([t] + ts, u, a) <==>
            || Matches(ts, u, a)
            || (u != [] && (t.Deep? || u[0] != a.slash) && Matches([t] + ts, u[1..], a))
  {
    MatchesCons(t, ts, u, a);
    if u != [] {
      MatchesCons(t, ts, u[1..], a);
    }
    if i: nat :| CutAt(t, ts, u, a, i) {
      if i == 0 {
        assert u[0..] == u;
      } else {
        assert u[..i][0] == u[0] && u[1..][..i - 1] == u[..i][1..] && u[1..][i - 1..] == u[i..];
        assert CutAt(t, ts, u[1..], a, i - 1);
      }
    }
    if Matches(ts, u, a) {
      assert u[0..] == u && CutAt(t, ts, u, a, 0);
    }
    if u != [] && (t.Deep? || u[0] != a.slash) {
      if i: nat :| CutAt(t, ts, u[1..], a, i) {
        assert u[..i + 1] == [u[0]] + u[1..][..i] && u[i + 1..] == u[1..][i..];
        assert CutAt(t, ts, u, a, i + 1);
      }
    }
  }

  /** An encoded pattern without question marks that matches from inside a character matches
      from one byte further on. */
  lemma {:induction false} SkipContinuation(pattern: string, u: seq<byte>, code: Code)
    requires SelfSynchronising(code) && '?' !in pattern && u != [] && Continuation(u[0])
    ensures Matches(Tokens(Text(pattern, code), BYTES), u, BYTES) ==>
              Matches(Tokens(Text(pattern, code), BYTES), u[1..], BYTES)
    decreases |pattern|
  {
    if pattern == "" {
      MatchesNone(u, BYTES);
    } else if pattern[0] == '*' {
      var t, rest := Wild<byte>(pattern), pattern[WildLength(pattern)..];
      ByteWild(pattern, code);
      SkipContinuation(rest, u, code);
      WildStep(t, Tokens(Text(rest, code), BYTES), u, BYTES);
      WildStep(t, Tokens(Text(rest, code), BYTES), u[1..], BYTES);
    } else {
      LiteralStep(pattern, u, code);
      LeadIsNoContinuation(pattern[0], u, code);
    }
  }

  lemma LeadIsNoContinuation(c: char, u: seq<byte>, code: Code)
    requires SelfSynchronising(code) && u != [] && Continuation(u[0])
    ensures !(code(c) <= u)
  {
    assert Shaped(c, code(c));
    assert code(c)[0] != u[0];
  }

  lemma {:induction false} SkipContinuations(pattern: string, bytes: seq<byte>, u: seq<byte>, code: Code)
    requires SelfSynchronising(code) && '?' !in pattern
    requires forall i :: 0 <= i < |bytes| ==> Continuation(bytes[i])
    requires Matches(Tokens(Text(pattern, code), BYTES), bytes + u, BYTES)
    ensures Matches(Tokens(Text(pattern, code), BYTES), u, BYTES)
  {
    if bytes == [] {
      assert bytes + u == u;
    } else {
      SkipContinuation(pattern, bytes + u, code);
      assert (bytes + u)[1..] == bytes[1..] + u;
      SkipContinuations(pattern, bytes[1..], u, code);
    }
  }

  lemma {:induction false} WildTakes(t: Token<byte>, ts: seq<Token<byte>>, bytes: seq<byte>, u: seq<byte>)
    requires (t.Star? && BYTES.slash !in bytes) || t.Deep?
    requires Matches([t] + ts, u, BYTES)
    ensures Matches([t] + ts, bytes + u, BYTES)
  {
    if bytes == [] {
      assert bytes + u == u;
    } else {
      WildTakes(t, ts, bytes[1..], u);
      assert (bytes + u)[1..] == bytes[1..] + u;
      WildStep(t, ts, bytes + u, BYTES);
    }
  }

  /** A wildcard takes nothing, or one whole character and goes on. */
  lemma WildOverChar(pattern: string, c: char, u: seq<byte>, code: Code)
    requires SelfSynchronising(code) && pattern != "" && pattern[0] == '*' && ('?' !in pattern || Ascii(c))
    ensures var rest := pattern[WildLength(pattern)..];
            Matches(Tokens(Text(pattern, code), BYTES), code(c) + u, BYTES) <==>
            || Matches(Tokens(Text(rest, code), BYTES), code(c) + u, BYTES)
            || ((Wild<byte>(pattern).Deep? || c != '/') && Matches(Tokens(Text(pattern, code), BYTES), u, BYTES))
  {
    var t, rest := Wild<byte>(pattern), pattern[WildLength(pattern)..];
    var ts, bytes := Tokens(Text(rest, code), BYTES), code(c);
    ByteWild(pattern, code);
    assert Shaped(c, bytes);
    WildStep(t, ts, bytes + u, BYTES);
    assert (bytes + u)[1..] == bytes[1..] + u;
    if Ascii(c) {
      assert bytes[1..] + u == u;
    } else {
      if Matches([t] + ts, bytes[1..] + u, BYTES) {
        SkipContinuations(pattern, bytes[1..], u, code);
      }
      if Matches([t] + ts, u, BYTES) {
        WildTakes(t, ts, bytes, u);
      }
    }
  }

  // ----- The two agree -----

  /** Bytes and characters match alike for every subject when the pattern has no question mark,
      and for every pattern when the subject is ASCII. */
  lemma {:induction false} BytesMatchLikeCharacters(pattern: string, s: string, code: Code)
    requires SelfSynchronising(code) && ('?' !in pattern || AllAscii(s))
    ensures ByteMatch(pattern, s, code) <==> CharMatch(pattern, s)
    decreases |pattern|, |s|
  {
    if s != "" {
      BeginsWith(s[0], s, code);
      assert Shaped(s[0], code(s[0]));
    }
    if pattern == "" {
      MatchesNone(s, CHARS);
      MatchesNone(Text(s, code), BYTES);
    } else if pattern[0] == '*' {
      WildAgrees(pattern, s, code);
    } else if pattern[0] == '?' {
      QuestionAgrees(pattern, s, code);
    } else {
      LiteralStep(pattern, Text(s, code), code);
      BeginsWith(pattern[0], s, code);
      MatchesChar(Lit(pattern[0]), Tokens(pattern[1..], CHARS), s, CHARS);
      if s != "" {
        BytesMatchLikeCharacters(pattern[1..], s[1..], code);
      }
    }
  }

  lemma {:induction false} WildAgrees(pattern: string, s: string, code: Code)
    requires SelfSynchronising(code) && ('?' !in pattern || AllAscii(s)) && pattern != "" && pattern[0] == '*'
    ensures ByteMatch(pattern, s, code) <==> CharMatch(pattern, s)
    decreases |pattern|, |s|, 0
  {
    var rest := pattern[WildLength(pattern)..];
    CharWild(pattern);
    ByteWild(pattern, code);
    BytesMatchLikeCharacters(rest, s, code);
    WildStep(Wild(pattern), Tokens(rest, CHARS), s, CHARS);
    if s == "" {
      WildStep(Wild(pattern), Tokens(Text(rest, code), BYTES), [], BYTES);
    } else {
      WildOverChar(pattern, s[0], Text(s[1..], code), code);
      BytesMatchLikeCharacters(pattern, s[1..], code);
    }
  }

  lemma {:induction false} QuestionAgrees(pattern: string, s: string, code: Code)
    requires SelfSynchronising(code) && AllAscii(s) && pattern != "" && pattern[0] == '?'
    ensures ByteMatch(pattern, s, code) <==> CharMatch(pattern, s)
    decreases |pattern|, |s|, 0
  {
    var text := Text(s, code);
    assert Shaped('?', code('?'));
    assert Text(pattern, code) == [BYTES.question] + Text(pattern[1..], code);
    assert Text(pattern, code)[1..] == Text(pattern[1..], code);
    MatchesChar(One, Tokens(Text(pattern[1..], code), BYTES), text, BYTES);
    MatchesChar(One, Tokens(pattern[1..], CHARS), s, CHARS);
    if s != "" {
      assert Shaped(s[0], code(s[0]));
      assert text == [s[0] as int] + Text(s[1..], code) && text[1..] == Text(s[1..], code);
      BytesMatchLikeCharacters(pattern[1..], s[1..], code);
    }
  }

  /** So the service's matcher, on UTF-8, does what is documented for every subject when the
      pattern has no question mark, and for every pattern when the subject is ASCII. */
  lemma ServiceMatchesAsDocumented(pattern: string, s: string)
    requires '?' !in pattern || AllAscii(s)
    ensures ByteMatch(pattern, s, Encode) <==> CharMatch(pattern, s)
  {
    EncodeIsSelfSynchronising();
    BytesMatchLikeCharacters(pattern, s, Encode);
  }

  /** A question mark stands for one character exactly when that character is ASCII (and not a
      slash): any other has several bytes, and the question mark takes one. */
  lemma QuestionTakesOneCharacterExactlyWhenAscii(c: char)
    ensures ByteMatch("?", [c], Encode) <==> Ascii(c) && c != '/'
    ensures CharMatch("?", [c]) <==> c != '/'
  {
    var text := Text([c], Encode);
    assert [c][1..] == [] && "?"[1..] == [];
    assert Text([c][1..], Encode) == [] && Text("?"[1..], Encode) == [];
    assert text == Encode(c) && Text("?", Encode) == [BYTES.question];
    assert [BYTES.question][1..] == [] && Tokens([BYTES.question], BYTES) == [One] + [];
    assert Tokens("?", CHARS) == [One] + [];
    MatchesChar(One, [], text, BYTES);
    MatchesChar(One, [], [c], CHARS);
    MatchesNone(text[1..], BYTES);
    MatchesNone([c][1..], CHARS);
  }

  /** The subject with everything but its slashes masked. */
  function Mask(s: string): string {
    if s == "" then "" else [if s[0] == '/' then '/' else '?'] + Mask(s[1..])
  }

  lemma {:induction false} MaskMatchesCharacters(s: string)
    ensures CharMatch(Mask(s), s)
  {
    if s == "" {
      MatchesNone(s, CHARS);
    } else {
      var mask := Mask(s);
      MaskMatchesCharacters(s[1..]);
      assert mask[1..] == Mask(s[1..]);
      MatchesChar(if s[0] == '/' then Lit('/') else One, Tokens(mask[1..], CHARS), s, CHARS);
    }
  }

  /** Every byte of a mask takes one byte. */
  lemma {:induction false} MaskTakesOneByteEach(s: string, u: seq<byte>)
    ensures Matches(Tokens(Text(Mask(s), Encode), BYTES), u, BYTES) ==> |u| == |s|
    decreases s
  {
    if s == "" {
      MatchesNone(u, BYTES);
    } else {
      var mask, b: byte := Mask(s), if s[0] == '/' then BYTES.slash else BYTES.question;
      assert mask[1..] == Mask(s[1..]) && Encode(mask[0]) == [b];
      var rest := Text(mask[1..], Encode);
      assert ([b] + rest)[1..] == rest;
      MatchesChar(if s[0] == '/' then Lit(b) else One, Tokens(rest, BYTES), u, BYTES);
      if u != [] {
        MaskTakesOneByteEach(s[1..], u[1..]);
      }
    }
  }

  lemma {:induction false} TextIsLongerExactlyWhenNotAscii(s: string)
    ensures |Text(s, Encode)| >= |s|
    ensures |Text(s, Encode)| == |s| <==> AllAscii(s)
  {
    if s != "" {
      TextIsLongerExactlyWhenNotAscii(s[1..]);
      assert AllAscii(s) <==> Ascii(s[0]) && AllAscii(s[1..]) by {
        assert forall i :: 1 <= i < |s| ==> s[i] == s[1..][i - 1];
        assert forall i :: 0 <= i < |s| - 1 ==> s[1..][i] == s[i + 1];
      }
    }
  }

  /** The service does what is documented for a subject, whatever the pattern, exactly when the
      subject is ASCII. */
  lemma DocumentedForAllPatternsExactlyWhenAscii(s: string)
    ensures (forall pattern :: ByteMatch(pattern, s, Encode) <==> CharMatch(pattern, s)) <==> AllAscii(s)
  {
    if AllAscii(s) {
      forall pattern
        ensures ByteMatch(pattern, s, Encode) <==> CharMatch(pattern, s)
      {
        ServiceMatchesAsDocumented(pattern, s);
      }
    } else {
      MaskMatchesCharacters(s);
      MaskTakesOneByteEach(s, Text(s, Encode));
      TextIsLongerExactlyWhenNotAscii(s);
      assert CharMatch(Mask(s), s) && !ByteMatch(Mask(s), s, Encode);
    }
  }
}
