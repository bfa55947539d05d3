/** Subject globs: the syntax check made before a pattern is stored (once in the browser, once
    in the service), and the matcher the service runs. */
module Glob {
  import opened Prelude
  import Trim

  /** The characters with a meaning of their own, in whatever units a text is made of. */
  datatype Alphabet<T> = Alphabet(star: T, question: T, slash: T)

  const BYTES: Alphabet<byte> := Alphabet(42, 63, 47)
  const CHARS: Alphabet<char> := Alphabet('*', '?', '/')

  // ----- Syntax -----

  datatype Verdict =
    | Accepted
    | Empty
    | LongRun(length: nat, offset: nat)
    | Blanks

  predicate StarAt<T(==)>(s: seq<T>, star: T, i: nat) {
    i < |s| && s[i] == star
  }

  predicate TripleAt<T(==)>(s: seq<T>, star: T, i: nat) {
    StarAt(s, star, i) && StarAt(s, star, i + 1) && StarAt(s, star, i + 2)
  }

  predicate HasTriple<T(==)>(s: seq<T>, star: T) {
    exists i :: 0 <= i < |s| && TripleAt(s, star, i)
  }

  /** The stars from offset on, as many as length, stopped on both sides. */
  predicate MaximalRun<T(==)>(s: seq<T>, star: T, offset: nat, length: nat) {
    && offset + length <= |s|
    && (forall i :: offset <= i < offset + length ==> s[i] == star)
    && (offset == 0 || s[offset - 1] != star)
    && !StarAt(s, star, offset + length)
  }

  /** White space as the browser trims it: Unicode's, with the byte order mark for the next
      line. */
  predicate BrowserBlank(c: char) {
    (Trim.Space(c) && c as int != 0x85) || c as int == 0xfeff
  }

  predicate Valid<T(==)>(pattern: seq<T>, star: T, blank: T -> bool) {
    pattern != [] && !HasTriple(pattern, star) && Trim.Both(pattern, blank) == pattern
  }

  /** The length of the run of stars at an offset. */
  method RunLength<T(==)>(pattern: seq<T>, star: T, i: nat) returns (length: nat)
    requires i < |pattern|
    ensures i + length <= |pattern|
    ensures forall k :: i <= k < i + length ==> pattern[k] == star
    ensures !StarAt(pattern, star, i + length)
  {
    length := 0;
    var j := i;
    while j < |pattern| && pattern[j] == star
      invariant i <= j <= |pattern| && length == j - i
      invariant forall k :: i <= k < j ==> pattern[k] == star
    {
      length := length + 1;
      j := j + 1;
    }
  }

  /** The syntax scan, in any units: the first fault found, in the order emptiness, runs,
      blanks. */
  method Validate<T(==)>(pattern: seq<T>, star: T, blank: T -> bool) returns (v: Verdict)
    ensures v == Accepted <==> Valid(pattern, star, blank)
    ensures v == Empty <==> pattern == []
    ensures v.LongRun? <==> HasTriple(pattern, star)
    ensures v.LongRun? ==> v.length > 2 && MaximalRun(pattern, star, v.offset, v.length)
    ensures v.LongRun? ==> forall i :: 0 <= i < v.offset ==> !TripleAt(pattern, star, i)
  {
    if pattern == [] {
      return Empty;
    }
    var i := 0;
    while i < |pattern|
      invariant 0 <= i <= |pattern|
      invariant i > 0 && StarAt(pattern, star, i) ==> pattern[i - 1] != star
      invariant forall k :: 0 <= k < i ==> !TripleAt(pattern, star, k)
    {
      if pattern[i] != star {
        i := i + 1;
      } else {
        var length := RunLength(pattern, star, i);
        if length > 2 {
          assert TripleAt(pattern, star, i);
          return LongRun(length, i);
        }
        i := i + length;
      }
    }
    if pattern != Trim.Both(pattern, blank) {
      return Blanks;
    }
    return Accepted;
  }

  /** The browser and the service give the same answer except on patterns without a long run
      whose ends include one of the two characters only one of them trims, and no other
      white space that the other one trims. */
  lemma ChecksDisagreeExactly(pattern: string)
    ensures Valid(pattern, '*', BrowserBlank) != Valid(pattern, '*', Trim.Space) <==>
            && pattern != "" && !HasTriple(pattern, '*')
            && var a, b := pattern[0], pattern[|pattern| - 1];
               || ((a as int == 0xfeff || b as int == 0xfeff) && !Trim.Space(a) && !Trim.Space(b))
               || ((a as int == 0x85 || b as int == 0x85) && !BrowserBlank(a) && !BrowserBlank(b))
  {
    Trim.UnchangedExactlyWhenEndsAreNotBlank(pattern, BrowserBlank);
    Trim.UnchangedExactlyWhenEndsAreNotBlank(pattern, Trim.Space);
  }

  // ----- Matching -----

  datatype Token<T> = Star | Deep | One | Lit(c: T)

  /** Reading a pattern from the left, two stars before one. */
  function Tokens<T(==)>(pattern: seq<T>, a: Alphabet<T>): seq<Token<T>> {
    if pattern == [] then []
    else if pattern[0] == a.star then
      if StarAt(pattern, a.star, 1) then [Deep] + Tokens(pattern[2..], a) else [Star] + Tokens(pattern[1..], a)
    else if pattern[0] == a.question then [One] + Tokens(pattern[1..], a)
    else [Lit(pattern[0])] + Tokens(pattern[1..], a)
  }

  /** What a token stands for. */
  predicate Fits<T(==)>(t: Token<T>, piece: seq<T>, a: Alphabet<T>) {
    match t
    case Star => a.slash !in piece
    case Deep => true
    case One => |piece| == 1 && piece[0] != a.slash
    case Lit(c) => piece == [c]
  }

  ghost function Concat<T>(pieces: seq<seq<T>>): seq<T> {
    if pieces == [] then [] else pieces[0] + Concat(pieces[1..])
  }

  ghost predicate CutsInto<T>(ts: seq<Token<T>>, s: seq<T>, a: Alphabet<T>, pieces: seq<seq<T>>) {
    && |pieces| == |ts| && Concat(pieces) == s
    && forall i :: 0 <= i < |ts| ==> Fits(ts[i], pieces[i], a)
  }

  /** The whole subject can be cut into one piece for each token. */
  ghost predicate Matches<T(!new)>(ts: seq<Token<T>>, s: seq<T>, a: Alphabet<T>) {
    exists pieces: seq<seq<T>> :: CutsInto(ts, s, a, pieces)
  }

  lemma MatchesNone<T(!new)>(s: seq<T>, a: Alphabet<T>)
    ensures Matches([], s, a) <==> s == []
  {
    assert CutsInto([], [], a, []);
  }

  ghost predicate CutAt<T(!new)>(t: Token<T>, ts: seq<Token<T>>, s: seq<T>, a: Alphabet<T>, i: nat) {
    i <= |s| && Fits(t, s[..i], a) && Matches(ts, s[i..], a)
  }

  lemma MatchesCons<T(!new)>(t: Token<T>, ts: seq<Token<T>>, s: seq<T>, a: Alphabet<T>)
    ensures Matches([t] + ts, s, a) <==> exists i :: CutAt(t, ts, s, a, i)
  {
    if Matches([t] + ts, s, a) {
      var pieces: seq<seq<T>> :| CutsInto([t] + ts, s, a, pieces);
      var i := |pieces[0]|;
      assert s[..i] == pieces[0] && s[i..] == Concat(pieces[1..]);
      assert CutsInto(ts, s[i..], a, pieces[1..]) by {
        assert forall k :: 0 <= k < |ts| ==> ts[k] == ([t] + ts)[k + 1] && pieces[1..][k] == pieces[k + 1];
      }
      assert CutAt(t, ts, s, a, i);
    }
    if i: nat :| CutAt(t, ts, s, a, i) {
      var rest: seq<seq<T>> :| CutsInto(ts, s[i..], a, rest);
      var pieces := [s[..i]] + rest;
      assert pieces[1..] == rest && s[..i] + s[i..] == s;
      assert CutsInto([t] + ts, s, a, pieces);
    }
  }

  /** A token that stands for one unit takes the first one. */
  lemma MatchesChar<T(!new)>(t: Token<T>, ts: seq<Token<T>>, s: seq<T>, a: Alphabet<T>)
    requires t.One? || t.Lit?
    ensures Matches([t] + ts, s, a) <==> s != [] && Fits(t, s[..1], a) && Matches(ts, s[1..], a)
  {
    MatchesCons(t, ts, s, a);
    if s != [] && Fits(t, s[..1], a) && Matches(ts, s[1..], a) {
      assert CutAt(t, ts, s, a, 1);
    }
  }

  /** The matcher, on bytes: literals in a loop, wildcards by trying every length. */
  method MatchGlob(pattern: seq<byte>, subject: seq<byte>) returns (r: bool)
    ensures r <==> Matches(Tokens(pattern, BYTES), subject, BYTES)
    decreases |pattern|, 0
  {
    var p, s := pattern, subject;
    while p != []
      invariant |p| <= |pattern|
      invariant Matches(Tokens(pattern, BYTES), subject, BYTES) <==> Matches(Tokens(p, BYTES), s, BYTES)
      decreases |p|
    {
      if p[0] == BYTES.star {
        if |p| >= 2 && p[1] == BYTES.star {
          r := TryDeep(p[2..], s);
          return;
        }
        r := TryStar(p[1..], s);
        return;
      } else if p[0] == BYTES.question {
        MatchesChar(One, Tokens(p[1..], BYTES), s, BYTES);
        if s == [] || s[0] == BYTES.slash {
          return false;
        }
        p, s := p[1..], s[1..];
      } else {
        MatchesChar(Lit(p[0]), Tokens(p[1..], BYTES), s, BYTES);
        if s == [] || s[0] != p[0] {
          return false;
        }
        p, s := p[1..], s[1..];
      }
    }
    MatchesNone(s, BYTES);
    return s == [];
  }

  method TryDeep(rest: seq<byte>, s: seq<byte>) returns (r: bool)
    ensures r <==> Matches([Deep] + Tokens(rest, BYTES), s, BYTES)
    decreases |rest|, 1
  {
    MatchesCons(Deep, Tokens(rest, BYTES), s, BYTES);
    for i := 0 to |s| + 1
      invariant forall k :: 0 <= k < i ==> !CutAt(Deep, Tokens(rest, BYTES), s, BYTES, k)
    {
      var hit := MatchGlob(rest, s[i..]);
      if hit {
        assert CutAt(Deep, Tokens(rest, BYTES), s, BYTES, i);
        return true;
      }
    }
    return false;
  }

  method TryStar(rest: seq<byte>, s: seq<byte>) returns (r: bool)
    ensures r <==> Matches([Star] + Tokens(rest, BYTES), s, BYTES)
    decreases |rest|, 1
  {
    MatchesCons(Star, Tokens(rest, BYTES), s, BYTES);
    for i := 0 to |s| + 1
      invariant forall k :: 0 <= k < i && k < |s| ==> s[k] != BYTES.slash
      invariant forall k :: 0 <= k < i ==> !CutAt(Star, Tokens(rest, BYTES), s, BYTES, k)
    {
      var hit := MatchGlob(rest, s[i..]);
      if hit {
        assert CutAt(Star, Tokens(rest, BYTES), s, BYTES, i);
        return true;
      }
      if i < |s| && s[i] == BYTES.slash {
        assert forall k :: i < k <= |s| ==> s[..k][i] == BYTES.slash;
        return false;
      }
    }
    return false;
  }

  // ----- What a stored pattern can let through -----

  function Slashes<T(==)>(s: seq<T>, a: Alphabet<T>): nat {
    if s == [] then 0 else (if s[0] == a.slash then 1 else 0) + Slashes(s[1..], a)
  }

  lemma {:induction false} SlashesConcat<T>(s: seq<T>, t: seq<T>, a: Alphabet<T>)
    ensures Slashes(s + t, a) == Slashes(s, a) + Slashes(t, a)
  {
    if s == [] {
      assert s + t == t;
    } else {
      SlashesConcat(s[1..], t, a);
      assert (s + t)[1..] == s[1..] + t;
    }
  }

  lemma {:induction false} NoSlashes<T>(s: seq<T>, a: Alphabet<T>)
    requires a.slash !in s
    ensures Slashes(s, a) == 0
  {
    if s != [] {
      NoSlashes(s[1..], a);
    }
  }

  lemma PieceSlashes<T>(t: Token<T>, piece: seq<T>, a: Alphabet<T>)
    requires !t.Deep? && Fits(t, piece, a)
    ensures Slashes(piece, a) == if t == Lit(a.slash) then 1 else 0
  {
    if t.Lit? {
      assert piece[1..] == [];
    } else {
      NoSlashes(piece, a);
    }
  }

  /** No two stars in a row. */
  ghost predicate Shallow<T>(pattern: seq<T>, a: Alphabet<T>) {
    forall i :: 0 <= i < |pattern| ==> !(StarAt(pattern, a.star, i) && StarAt(pattern, a.star, i + 1))
  }

  ghost predicate Distinct<T>(a: Alphabet<T>) {
    a.star != a.slash && a.question != a.slash && a.star != a.question
  }

  lemma ShallowStep<T>(pattern: seq<T>, a: Alphabet<T>) returns (t: Token<T>)
    requires Distinct(a) && Shallow(pattern, a) && pattern != []
    ensures Shallow(pattern[1..], a) && Tokens(pattern, a) == [t] + Tokens(pattern[1..], a)
    ensures !t.Deep? && (t == Lit(a.slash) <==> pattern[0] == a.slash)
  {
    var rest := pattern[1..];
    forall i | 0 <= i < |rest|
      ensures !(StarAt(rest, a.star, i) && StarAt(rest, a.star, i + 1))
    {
      assert !(StarAt(pattern, a.star, i + 1) && StarAt(pattern, a.star, i + 2));
    }
    assert !(StarAt(pattern, a.star, 0) && StarAt(pattern, a.star, 1));
    t := if pattern[0] == a.star then Star else if pattern[0] == a.question then One else Lit(pattern[0]);
  }

  /** A pattern without two stars in a row only lets through subjects with exactly its own
      number of slashes: wildcards never cross one. */
  lemma {:induction false} SlashesAreKept<T(!new)>(pattern: seq<T>, s: seq<T>, a: Alphabet<T>)
    requires Distinct(a) && Shallow(pattern, a)
    requires Matches(Tokens(pattern, a), s, a)
    ensures Slashes(s, a) == Slashes(pattern, a)
    decreases |pattern|
  {
    if pattern == [] {
      MatchesNone(s, a);
    } else {
      var t := ShallowStep(pattern, a);
      var i := CutOf(t, Tokens(pattern[1..], a), s, a);
      SlashesAreKept(pattern[1..], s[i..], a);
    }
  }

  lemma CutOf<T(!new)>(t: Token<T>, ts: seq<Token<T>>, s: seq<T>, a: Alphabet<T>) returns (i: nat)
    requires Matches([t] + ts, s, a) && !t.Deep?
    ensures i <= |s| && Matches(ts, s[i..], a)
    ensures Slashes(s, a) == (if t == Lit(a.slash) then 1 else 0) + Slashes(s[i..], a)
  {
    MatchesCons(t, ts, s, a);
    i :| CutAt(t, ts, s, a, i);
    PieceSlashes(t, s[..i], a);
    SlashesConcat(s[..i], s[i..], a);
    assert s == s[..i] + s[i..];
  }

  /** A pattern without wildcards lets through exactly itself. */
  lemma {:induction false} LiteralMatchesItself<T(!new)>(pattern: seq<T>, s: seq<T>, a: Alphabet<T>)
    requires a.star !in pattern && a.question !in pattern
    ensures Matches(Tokens(pattern, a), s, a) <==> s == pattern
    decreases |pattern|
  {
    if pattern == [] {
      MatchesNone(s, a);
    } else {
      MatchesChar(Lit(pattern[0]), Tokens(pattern[1..], a), s, a);
      if s != [] {
        LiteralMatchesItself(pattern[1..], s[1..], a);
        assert s == [s[0]] + s[1..];
        assert pattern == [pattern[0]] + pattern[1..];
      }
    }
  }

  // ----- What the wildcards mean, wherever they stand -----

  lemma {:induction false} LiteralPrefix<T(!new)>(p: seq<T>, q: seq<T>, s: seq<T>, a: Alphabet<T>)
    requires a.star !in p && a.question !in p
    ensures Matches(Tokens(p + q, a), s, a) <==> p <= s && Matches(Tokens(q, a), s[|p|..], a)
    decreases p
  {
    if p == [] {
      assert p + q == q && s[0..] == s;
    } else {
      assert (p + q)[1..] == p[1..] + q && (p + q)[0] == p[0];
      MatchesChar(Lit(p[0]), Tokens(p[1..] + q, a), s, a);
      if s != [] {
        LiteralPrefix(p[1..], q, s[1..], a);
        assert p <= s <==> s[0] == p[0] && p[1..] <= s[1..];
        assert p <= s ==> s[1..][|p| - 1..] == s[|p|..];
      }
    }
  }

  /** The rest of the pattern matches what is left after the first i units. */
  ghost predicate RestMatches<T(!new)>(q: seq<T>, s: seq<T>, i: nat, a: Alphabet<T>) {
    i <= |s| && Matches(Tokens(q, a), s[i..], a)
  }

  /** A single star takes any run without a slash, a double star any run, a question mark one
      unit that is not a slash, after any literal text and before any further pattern. */
  lemma SingleStarMeans<T(!new)>(q: seq<T>, s: seq<T>, a: Alphabet<T>)
    requires q == [] || q[0] != a.star
    ensures Matches(Tokens([a.star] + q, a), s, a) <==> exists i: nat :: RestMatches(q, s, i, a) && a.slash !in s[..i]
  {
    var all := [a.star] + q;
    assert all[1..] == q && !StarAt(all, a.star, 1);
    WildMeans(Star, q, s, a);
  }

  lemma DoubleStarMeans<T(!new)>(q: seq<T>, s: seq<T>, a: Alphabet<T>)
    ensures Matches(Tokens([a.star, a.star] + q, a), s, a) <==> exists i: nat :: RestMatches(q, s, i, a)
  {
    var all := [a.star, a.star] + q;
    assert all[2..] == q && StarAt(all, a.star, 1);
    WildMeans(Deep, q, s, a);
    if i: nat :| RestMatches(q, s, i, a) {
      assert Fits(Deep, s[..i], a);
    }
  }

  lemma QuestionMarkMeans<T(!new)>(q: seq<T>, s: seq<T>, a: Alphabet<T>)
    requires a.question != a.star
    ensures Matches(Tokens([a.question] + q, a), s, a) <==> s != [] && s[0] != a.slash && RestMatches(q, s, 1, a)
  {
    var all := [a.question] + q;
    assert all[1..] == q;
    MatchesChar(One, Tokens(q, a), s, a);
  }

  lemma WildMeans<T(!new)>(t: Token<T>, q: seq<T>, s: seq<T>, a: Alphabet<T>)
    ensures Matches([t] + Tokens(q, a), s, a) <==> exists i: nat :: RestMatches(q, s, i, a) && Fits(t, s[..i], a)
  {
    MatchesCons(t, Tokens(q, a), s, a);
    if i: nat :| CutAt(t, Tokens(q, a), s, a, i) {
      assert RestMatches(q, s, i, a);
    }
    if i: nat :| RestMatches(q, s, i, a) && Fits(t, s[..i], a) {
      assert CutAt(t, Tokens(q, a), s, a, i);
    }
  }

  /** The units with a meaning are those of the documented characters. */
  lemma AlphabetsAgree()
    ensures BYTES.star == '*' as int && BYTES.question == '?' as int && BYTES.slash == '/' as int
    ensures CHARS.star == '*' && CHARS.question == '?' && CHARS.slash == '/'
  {
  }
}
