/** Stripping a run of one repeated character from the end of a string, the operation behind the
    trimming of connection error messages (trailing spaces) and of cancel error messages
    (trailing NUL characters). */
module Trimming {
  /** r is s without its trailing run of c: a prefix of s that does not end in c, followed in s
      only by copies of c. */
  predicate Stripped(s: string, c: char, r: string)
  {
    && |r| <= |s| && r == s[..|r|]
    && (|r| == 0 || r[|r| - 1] != c)
    && forall j :: |r| <= j < |s| ==> s[j] == c
  }

  function StripTrailing(s: string, c: char): string
  {
    if |s| > 0 && s[|s| - 1] == c then StripTrailing(s[..|s| - 1], c) else s
  }

  lemma {:induction false} StripTrailingStrips(s: string, c: char)
    ensures Stripped(s, c, StripTrailing(s, c))
  {
    if |s| > 0 && s[|s| - 1] == c {
      var init := s[..|s| - 1];
      StripTrailingStrips(init, c);
      var r := StripTrailing(init, c);
      assert r == s[..|r|];
    }
  }

  /** There is only one way to strip the trailing run. */
  lemma StrippedUnique(s: string, c: char, r1: string, r2: string)
    requires Stripped(s, c, r1) && Stripped(s, c, r2)
    ensures r1 == r2
  {
  }

  /** A string that does not end in c is left as it is. */
  lemma NothingToStrip(s: string, c: char)
    requires |s| == 0 || s[|s| - 1] != c
    ensures StripTrailing(s, c) == s
  {
  }

  /** A string made only of c is stripped to the empty string. */
  lemma OnlyTheCharacter(s: string, c: char)
    requires forall j :: 0 <= j < |s| ==> s[j] == c
    ensures StripTrailing(s, c) == []
  {
    StripTrailingStrips(s, c);
  }

  /** Appending copies of c to a string that does not end in c gives it back when stripped. */
  lemma StripAppended(s: string, c: char, n: nat)
    requires |s| == 0 || s[|s| - 1] != c
    ensures StripTrailing(s + seq(n, _ => c), c) == s
  {
    var t := s + seq(n, _ => c);
    StripTrailingStrips(t, c);
    assert Stripped(t, c, s) by {
      assert s == t[..|s|];
    }
    StrippedUnique(t, c, s, StripTrailing(t, c));
  }
}
