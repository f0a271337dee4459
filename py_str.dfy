/**
 * The pieces of Python's `str` that the file renamer relies on:
 * `startswith`, the `in` operator, `replace`, `split` on one separator,
 * `join`, and `lstrip`/`rstrip` with an explicit set of characters.
 * Each one follows CPython's definition; the lemmas relate them to each other.
 */
module PyStr {

  /** `s.startswith(p)` */
  predicate StartsWith(s: string, p: string) {
    |p| <= |s| && s[..|p|] == p
  }

  /** `p in s`: `p` occurs at some position of `s`. */
  predicate Contains(s: string, p: string)
    decreases |s|
  {
    StartsWith(s, p) || (|s| > 0 && Contains(s[1..], p))
  }

  /** A one-character pattern occurs exactly when the character does. */
  lemma {:induction false} ContainsChar(s: string, c: char)
    ensures Contains(s, [c]) <==> c in s
  {
    if |s| > 0 {
      ContainsChar(s[1..], c);
      assert s == [s[0]] + s[1..];
    }
  }

  /** An occurrence inside a suffix is an occurrence in the whole string. */
  lemma {:induction false} ContainsInSuffix(s: string, k: nat, p: string)
    requires k <= |s|
    ensures Contains(s[k..], p) ==> Contains(s, p)
    decreases k
  {
    if k > 0 {
      assert s[1..][k - 1..] == s[k..];
      ContainsInSuffix(s[1..], k - 1, p);
    }
  }

  /** An occurrence inside a prefix is an occurrence in the whole string. */
  lemma {:induction false} ContainsInPrefix(s: string, k: nat, p: string)
    requires k <= |s|
    ensures Contains(s[..k], p) ==> Contains(s, p)
    decreases k
  {
    if k > 0 && Contains(s[..k], p) {
      if !StartsWith(s[..k], p) {
        assert s[..k][1..] == s[1..][..k - 1];
        ContainsInPrefix(s[1..], k - 1, p);
      }
    }
  }

  /**
   * `s.replace(pat, rep)`: scanning from the left, every occurrence of `pat`
   * that does not overlap an earlier replaced one becomes `rep`.
   * The renamer only ever replaces non-empty patterns.
   */
  function Replace(s: string, pat: string, rep: string): (r: string)
    requires pat != []
    ensures !Contains(s, pat) ==> r == s
    decreases |s|
  {
    if StartsWith(s, pat) then rep + Replace(s[|pat|..], pat, rep)
    else if s == [] then []
    else [s[0]] + Replace(s[1..], pat, rep)
  }

  /** Every character of a replacement result comes from the input or from `rep`. */
  lemma {:induction false} ReplaceChars(s: string, pat: string, rep: string, x: char)
    requires pat != []
    ensures x in Replace(s, pat, rep) ==> x in s || x in rep
    decreases |s|
  {
    if StartsWith(s, pat) {
      ReplaceChars(s[|pat|..], pat, rep, x);
    } else if s != [] {
      ReplaceChars(s[1..], pat, rep, x);
    }
  }

  /** Replacing a single character by a string without it removes that character. */
  lemma {:induction false} ReplaceCharRemoves(s: string, c: char, rep: string)
    requires c !in rep
    ensures c !in Replace(s, [c], rep)
    decreases |s|
  {
    if StartsWith(s, [c]) {
      ReplaceCharRemoves(s[1..], c, rep);
    } else if s != [] {
      ReplaceCharRemoves(s[1..], c, rep);
    }
  }

  /**
   * A separator character that the pattern does not contain is never part of
   * an occurrence, so replacing commutes with gluing two strings around it.
   */
  lemma {:induction false} ReplaceAroundSeparator(a: string, b: string, sep: char, pat: string, rep: string)
    requires pat != [] && sep !in pat
    ensures Replace(a + [sep] + b, pat, rep) == Replace(a, pat, rep) + [sep] + Replace(b, pat, rep)
    decreases |a|
  {
    var s := a + [sep] + b;
    if StartsWith(s, pat) {
      // every character of the occurrence belongs to `pat`, and `s[|a|]` does not
      assert forall k :: 0 <= k < |pat| ==> s[k] == pat[k] && s[k] in pat;
      assert s[|a|] == sep;
      assert |pat| <= |a|;
      assert a[..|pat|] == s[..|pat|];
      assert s[|pat|..] == a[|pat|..] + [sep] + b;
      ReplaceAroundSeparator(a[|pat|..], b, sep, pat, rep);
    } else if a == [] {
      assert s[1..] == b;
    } else {
      assert s[1..] == a[1..] + [sep] + b;
      if |pat| <= |a| {
        assert s[..|pat|] == a[..|pat|];
      }
      assert !StartsWith(a, pat);
      ReplaceAroundSeparator(a[1..], b, sep, pat, rep);
    }
  }

  /** Number of occurrences of the character `c` in `s`. */
  function Count(s: string, c: char): nat {
    if s == [] then 0 else (if s[0] == c then 1 else 0) + Count(s[1..], c)
  }

  /**
   * `s.split(sep)` with an explicit one-character separator: cuts at every
   * occurrence, keeping empty pieces (`"".split(" ") == [""]`).
   */
  function Split(s: string, sep: char): (pieces: seq<string>)
    ensures |pieces| == Count(s, sep) + 1
    ensures forall i :: 0 <= i < |pieces| ==> sep !in pieces[i]
    decreases |s|
  {
    if s == [] then [[]]
    else
      var rest := Split(s[1..], sep);
      if s[0] == sep then [[]] + rest
      else [[s[0]] + rest[0]] + rest[1..]
  }

  /** Splitting at one separator splits the two sides independently. */
  lemma {:induction false} SplitConcat(a: string, b: string, sep: char)
    ensures Split(a + [sep] + b, sep) == Split(a, sep) + Split(b, sep)
    decreases |a|
  {
    if a == [] {
      assert a + [sep] + b == [sep] + b;
      assert ([sep] + b)[1..] == b;
    } else {
      var s := a + [sep] + b;
      assert s[0] == a[0];
      assert s[1..] == a[1..] + [sep] + b;
      SplitConcat(a[1..], b, sep);
    }
  }

  /** `sep.join(pieces)` */
  function Join(pieces: seq<string>, sep: string): string
    decreases |pieces|
  {
    if |pieces| == 0 then []
    else if |pieces| == 1 then pieces[0]
    else pieces[0] + sep + Join(pieces[1..], sep)
  }

  /** Joining the pieces of a split with the separator gives back the string. */
  lemma {:induction false} JoinSplit(s: string, sep: char)
    ensures Join(Split(s, sep), [sep]) == s
    decreases |s|
  {
    if s != [] {
      var rest := Split(s[1..], sep);
      JoinSplit(s[1..], sep);
      if s[0] == sep {
        assert ([[]] + rest)[1..] == rest;
      } else {
        var pieces := [[s[0]] + rest[0]] + rest[1..];
        if |rest| == 1 {
          assert Join(pieces, [sep]) == [s[0]] + rest[0];
        } else {
          assert pieces[1..] == rest[1..];
          assert Join(pieces, [sep]) == [s[0]] + (rest[0] + [sep] + Join(rest[1..], [sep]));
        }
        assert s == [s[0]] + s[1..];
      }
    }
  }

  /** A string without the separator splits into itself. */
  lemma {:induction false} SplitWithoutSeparator(s: string, sep: char)
    requires sep !in s
    ensures Split(s, sep) == [s]
    decreases |s|
  {
    if s != [] {
      SplitWithoutSeparator(s[1..], sep);
      assert s == [s[0]] + s[1..];
    }
  }

  /** The first separator ends the first piece. */
  lemma {:induction false} SplitAtFirst(a: string, b: string, sep: char)
    requires sep !in a
    ensures Split(a + [sep] + b, sep) == [a] + Split(b, sep)
    decreases |a|
  {
    var s := a + [sep] + b;
    if a == [] {
      assert s[1..] == b;
    } else {
      assert s[1..] == a[1..] + [sep] + b;
      SplitAtFirst(a[1..], b, sep);
      assert a == [a[0]] + a[1..];
    }
  }

  /** Splitting the join of separator-free pieces gives back the pieces. */
  lemma {:induction false} SplitJoin(pieces: seq<string>, sep: char)
    requires |pieces| >= 1
    requires forall i :: 0 <= i < |pieces| ==> sep !in pieces[i]
    ensures Split(Join(pieces, [sep]), sep) == pieces
    decreases |pieces|
  {
    if |pieces| == 1 {
      SplitWithoutSeparator(pieces[0], sep);
    } else {
      SplitJoin(pieces[1..], sep);
      SplitAtFirst(pieces[0], Join(pieces[1..], [sep]), sep);
      assert pieces == [pieces[0]] + pieces[1..];
    }
  }

  /** `[p.replace(pat, rep) for p in pieces]`: the replacement applied to every piece. */
  function ReplaceEach(pieces: seq<string>, pat: string, rep: string): (r: seq<string>)
    requires pat != []
  {
    seq(|pieces|, i requires 0 <= i < |pieces| => Replace(pieces[i], pat, rep))
  }

  /**
   * Replacing in each piece and joining is replacing in the joined string,
   * when the pattern cannot reach across the separator.
   */
  lemma {:induction false} ReplaceJoin(pieces: seq<string>, sep: char, pat: string, rep: string)
    requires pat != [] && sep !in pat
    ensures Join(ReplaceEach(pieces, pat, rep), [sep]) == Replace(Join(pieces, [sep]), pat, rep)
    decreases |pieces|
  {
    if |pieces| >= 2 {
      ReplaceJoin(pieces[1..], sep, pat, rep);
      assert ReplaceEach(pieces, pat, rep)[1..] == ReplaceEach(pieces[1..], pat, rep);
      ReplaceAroundSeparator(pieces[0], Join(pieces[1..], [sep]), sep, pat, rep);
    }
  }

  /** How many characters `s.lstrip(chars)` removes: the longest prefix made of characters in `cs`. */
  function LStripLength(s: string, cs: set<char>): (k: nat)
    ensures k <= |s|
    ensures forall i :: 0 <= i < k ==> s[i] in cs
    ensures k < |s| ==> s[k] !in cs
    decreases |s|
  {
    if s != [] && s[0] in cs then 1 + LStripLength(s[1..], cs) else 0
  }

  /** `s.lstrip(chars)` */
  function LStrip(s: string, cs: set<char>): string {
    s[LStripLength(s, cs)..]
  }

  /** How many characters `s.rstrip(chars)` keeps: all but the longest suffix made of characters in `cs`. */
  function RStripLength(s: string, cs: set<char>): (n: nat)
    ensures n <= |s|
    ensures forall i :: n <= i < |s| ==> s[i] in cs
    ensures n > 0 ==> s[n - 1] !in cs
    decreases |s|
  {
    if s != [] && s[|s| - 1] in cs then RStripLength(s[..|s| - 1], cs) else |s|
  }

  /** `s.rstrip(chars)` */
  function RStrip(s: string, cs: set<char>): string {
    s[..RStripLength(s, cs)]
  }

  /** `s.lstrip(chars).rstrip(chars)`, the same as `s.strip(chars)`. */
  function Strip(s: string, cs: set<char>): string {
    RStrip(LStrip(s, cs), cs)
  }

  /**
   * What stripping leaves: the piece `s[i..i + |r|]` of the input, whose first
   * and last characters are outside `cs`, with only characters of `cs` cut away
   * on either side.
   */
  lemma StripShape(s: string, cs: set<char>) returns (i: nat)
    ensures var r := Strip(s, cs);
      && (r == [] || (r[0] !in cs && r[|r| - 1] !in cs))
      && i + |r| <= |s| && r == s[i..i + |r|]
      && (forall k :: 0 <= k < i ==> s[k] in cs)
      && (forall k :: i + |r| <= k < |s| ==> s[k] in cs)
  {
    i := LStripLength(s, cs);
    var l := s[i..];
    var n := RStripLength(l, cs);
    assert Strip(s, cs) == l[..n] == s[i..i + n];
    forall k | i + n <= k < |s| ensures s[k] in cs {
      assert s[k] == l[k - i];
    }
    if n > 0 {
      assert l[0] == s[i];
    }
  }

  /** Stripping only removes characters, so it cannot create an occurrence. */
  lemma StripContains(s: string, cs: set<char>, p: string)
    ensures Contains(Strip(s, cs), p) ==> Contains(s, p)
    ensures forall x :: x in Strip(s, cs) ==> x in s
  {
    var k := LStripLength(s, cs);
    ContainsInSuffix(s, k, p);
    ContainsInPrefix(s[k..], RStripLength(s[k..], cs), p);
  }

  /** A string whose ends are already outside `cs` is left alone. */
  lemma StripUnchanged(s: string, cs: set<char>)
    requires s == [] || (s[0] !in cs && s[|s| - 1] !in cs)
    ensures Strip(s, cs) == s
  {
    assert LStripLength(s, cs) == 0;
    assert LStrip(s, cs) == s;
    assert RStripLength(s, cs) == |s|;
  }
}
