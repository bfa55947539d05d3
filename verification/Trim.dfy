/** White space, and cutting it off both ends of a text. */
module Trim {

  /** White space as Unicode and Go's libraries define it. */
  predicate Space(c: char) {
    var n := c as int;
    || 0x9 <= n <= 0xd || n == 0x20 || n == 0x85 || n == 0xa0 || n == 0x1680 || 0x2000 <= n <= 0x200a
    || n == 0x2028 || n == 0x2029 || n == 0x202f || n == 0x205f || n == 0x3000
  }

  function Left<T>(s: seq<T>, blank: T -> bool): seq<T> {
    if s != [] && blank(s[0]) then Left(s[1..], blank) else s
  }

  function Right<T>(s: seq<T>, blank: T -> bool): seq<T> {
    if s != [] && blank(s[|s| - 1]) then Right(s[..|s| - 1], blank) else s
  }

  function Both<T>(s: seq<T>, blank: T -> bool): seq<T> {
    Right(Left(s, blank), blank)
  }

  lemma {:induction false} LeftDropsBlanks<T>(blanks: seq<T>, s: seq<T>, blank: T -> bool)
    requires forall i :: 0 <= i < |blanks| ==> blank(blanks[i])
    requires s != [] ==> !blank(s[0])
    ensures Left(blanks + s, blank) == s
  {
    if blanks == [] {
      assert blanks + s == s;
    } else {
      assert (blanks + s)[1..] == blanks[1..] + s;
      LeftDropsBlanks(blanks[1..], s, blank);
    }
  }

  lemma {:induction false} RightDropsBlanks<T>(s: seq<T>, blanks: seq<T>, blank: T -> bool)
    requires forall i :: 0 <= i < |blanks| ==> blank(blanks[i])
    requires s != [] ==> !blank(s[|s| - 1])
    ensures Right(s + blanks, blank) == s
  {
    if blanks == [] {
      assert s + blanks == s;
    } else {
      assert (s + blanks)[..|s + blanks| - 1] == s + blanks[..|blanks| - 1];
      RightDropsBlanks(s, blanks[..|blanks| - 1], blank);
    }
  }

  /** Blanks around a text whose own ends are not blank are exactly what is cut off. */
  lemma DropsBlanks<T>(before: seq<T>, s: seq<T>, after: seq<T>, blank: T -> bool)
    requires forall i :: 0 <= i < |before| ==> blank(before[i])
    requires forall i :: 0 <= i < |after| ==> blank(after[i])
    requires s != [] && !blank(s[0]) && !blank(s[|s| - 1])
    ensures Both(before + s + after, blank) == s
  {
    assert before + s + after == before + (s + after);
    LeftDropsBlanks(before, s + after, blank);
    RightDropsBlanks(s, after, blank);
  }

  lemma {:induction false} NeverLonger<T>(s: seq<T>, blank: T -> bool)
    ensures |Left(s, blank)| <= |s| && |Right(s, blank)| <= |s|
  {
    if s != [] {
      NeverLonger(s[1..], blank);
      NeverLonger(s[..|s| - 1], blank);
    }
  }

  /** Nothing is cut off exactly when neither end is blank. */
  lemma UnchangedExactlyWhenEndsAreNotBlank<T>(s: seq<T>, blank: T -> bool)
    ensures Both(s, blank) == s <==> s == [] || (!blank(s[0]) && !blank(s[|s| - 1]))
  {
    NeverLonger(Left(s, blank), blank);
    if s != [] {
      NeverLonger(s[1..], blank);
      NeverLonger(s[..|s| - 1], blank);
    }
  }
}
