/**
 * The file renamer `bin/slugren.py`: how it splits its `--path` argument into
 * paths, how it normalises a piece of a file name, and how it composes the new
 * name of an ordinary file and of a saved e-mail (`.eml`).
 *
 * `slugify` (python-slugify) and `unidecode` are foreign libraries; they are
 * parameters here (`Libraries`) and nothing is assumed about them except where
 * a lemma says so in its `requires`.
 */
module Slugren {
  import opened PyStr
  import PurePath

  /** The two library functions the renamer calls. */
  datatype Libraries = Libraries(slugify: string -> string, unidecode: string -> string)

  /** The characters `str.isspace` accepts, which `lstrip()`/`rstrip()` without arguments remove. */
  const Whitespace: set<char> := {
    '\t', '\n', '\U{0B}', '\U{0C}', '\r', '\U{1C}', '\U{1D}', '\U{1E}', '\U{1F}', ' ',
    '\U{85}', '\U{A0}', '\U{1680}', '\U{2000}', '\U{2001}', '\U{2002}', '\U{2003}',
    '\U{2004}', '\U{2005}', '\U{2006}', '\U{2007}', '\U{2008}', '\U{2009}', '\U{200A}',
    '\U{2028}', '\U{2029}', '\U{202F}', '\U{205F}', '\U{3000}'
  }

  /** The characters stripped from both ends of a slug. */
  const DotHyphen: set<char> := {'.', '-'}

  predicate IsAscii(s: string) {
    forall i :: 0 <= i < |s| ==> s[i] as int < 128
  }

  // ---------------------------------------------------------------------------
  // normalize(text)
  // ---------------------------------------------------------------------------

  /** `re.sub("-{2,}", "-", s)`: every run of two or more hyphens becomes one. */
  function CollapseHyphens(s: string): (r: string)
    ensures |r| <= |s|
    ensures s != [] ==> r != [] && r[0] == s[0]
    decreases |s|
  {
    if |s| >= 2 && s[0] == '-' && s[1] == '-' then CollapseHyphens(s[1..])
    else if s == [] then []
    else [s[0]] + CollapseHyphens(s[1..])
  }

  /** `s` with every hyphen deleted. */
  function DropHyphens(s: string): string
    decreases |s|
  {
    if s == [] then [] else (if s[0] == '-' then [] else [s[0]]) + DropHyphens(s[1..])
  }

  /** After collapsing, no two hyphens are adjacent. */
  lemma {:induction false} CollapseNoDoubleHyphen(s: string)
    ensures !Contains(CollapseHyphens(s), "--")
    decreases |s|
  {
    if |s| >= 2 && s[0] == '-' && s[1] == '-' {
      CollapseNoDoubleHyphen(s[1..]);
    } else if s != [] {
      CollapseNoDoubleHyphen(s[1..]);
      var r := CollapseHyphens(s);
      assert r[1..] == CollapseHyphens(s[1..]);
    }
  }

  /** Collapsing only deletes hyphens: every other character stays, in order. */
  lemma {:induction false} CollapseKeepsOthers(s: string)
    ensures DropHyphens(CollapseHyphens(s)) == DropHyphens(s)
    decreases |s|
  {
    if |s| >= 2 && s[0] == '-' && s[1] == '-' {
      CollapseKeepsOthers(s[1..]);
    } else if s != [] {
      CollapseKeepsOthers(s[1..]);
      assert ([s[0]] + CollapseHyphens(s[1..]))[1..] == CollapseHyphens(s[1..]);
    }
  }

  /** Every character of the collapsed string is a character of the input. */
  lemma {:induction false} CollapseChars(s: string, x: char)
    ensures x in CollapseHyphens(s) ==> x in s
    decreases |s|
  {
    if s != [] {
      CollapseChars(s[1..], x);
    }
  }

  /** A string without adjacent hyphens is left as it is. */
  lemma {:induction false} CollapseUnchanged(s: string)
    requires !Contains(s, "--")
    ensures CollapseHyphens(s) == s
    decreases |s|
  {
    if s != [] {
      CollapseUnchanged(s[1..]);
      assert s == [s[0]] + s[1..];
    }
  }

  /**
   * Collapsing is the normal form of the rewrite `--` to `-`: doing one such
   * rewrite anywhere first does not change the outcome.
   */
  lemma {:induction false} CollapseMerge(a: string, b: string)
    ensures CollapseHyphens(a + "--" + b) == CollapseHyphens(a + "-" + b)
    decreases |a|
  {
    var s1, s2 := a + "--" + b, a + "-" + b;
    if a == [] {
      assert s1[1..] == s2;
    } else {
      assert s1[0] == s2[0] && s1[1] == s2[1];
      assert s1[1..] == a[1..] + "--" + b;
      assert s2[1..] == a[1..] + "-" + b;
      CollapseMerge(a[1..], b);
    }
  }

  /** Collapsing twice is collapsing once. */
  lemma CollapseIdempotent(s: string)
    ensures CollapseHyphens(CollapseHyphens(s)) == CollapseHyphens(s)
  {
    CollapseNoDoubleHyphen(s);
    CollapseUnchanged(CollapseHyphens(s));
  }

  /**
   * The steps of `normalize` after `slugify`: `_` becomes `-`, runs of `-`
   * collapse, then `.` and `-` are stripped from both ends.
   */
  function Tidy(slug: string): string {
    Strip(CollapseHyphens(Replace(slug, "_", "-")), DotHyphen)
  }

  /** What those steps guarantee of their output. */
  predicate Tidied(s: string) {
    && '_' !in s
    && !Contains(s, "--")
    && (s == [] || (s[0] !in DotHyphen && s[|s| - 1] !in DotHyphen))
  }

  /** `normalize(text)` */
  function Normalize(text: string, libs: Libraries): string {
    libs.unidecode(Tidy(libs.slugify(Strip(text, Whitespace))))
  }

  /** The output of the post-slugify steps has no `_`, no `--`, and no `.`/`-` at either end. */
  lemma TidyIsTidied(slug: string)
    ensures Tidied(Tidy(slug))
  {
    var h := Replace(slug, "_", "-");
    ReplaceCharRemoves(slug, '_', "-");
    var c := CollapseHyphens(h);
    CollapseNoDoubleHyphen(h);
    CollapseChars(h, '_');
    var i := StripShape(c, DotHyphen);
    StripContains(c, DotHyphen, "--");
  }

  /** The post-slugify steps leave a string alone exactly when it is already tidied. */
  lemma TidyFixpoints(s: string)
    ensures Tidy(s) == s <==> Tidied(s)
  {
    TidyIsTidied(s);
    if Tidied(s) {
      ContainsChar(s, '_');
      assert Replace(s, "_", "-") == s;
      CollapseUnchanged(s);
      StripUnchanged(s, DotHyphen);
    }
  }

  /** Applying the post-slugify steps a second time changes nothing. */
  lemma TidyIdempotent(slug: string)
    ensures Tidy(Tidy(slug)) == Tidy(slug)
  {
    TidyIsTidied(slug);
    TidyFixpoints(Tidy(slug));
  }

  /** The post-slugify steps only introduce `-`, so they keep a string ASCII. */
  lemma TidyKeepsAscii(slug: string)
    requires IsAscii(slug)
    ensures IsAscii(Tidy(slug))
  {
    var h := Replace(slug, "_", "-");
    var c := CollapseHyphens(h);
    var t := Strip(c, DotHyphen);
    forall k | 0 <= k < |t| ensures t[k] as int < 128 {
      var x := t[k];
      StripContains(c, DotHyphen, "");
      CollapseChars(h, x);
      ReplaceChars(slug, "_", "-", x);
    }
  }

  /** `unidecode` leaves ASCII text as it is. */
  ghost predicate FixesAscii(f: string -> string) {
    forall t :: IsAscii(t) ==> f(t) == t
  }

  /**
   * When `slugify` yields ASCII and `unidecode` leaves ASCII alone, a normalised
   * name is tidied: no `_`, no `--`, no `.` or `-` at either end.
   */
  lemma NormalizeTidied(text: string, libs: Libraries)
    requires FixesAscii(libs.unidecode)
    requires IsAscii(libs.slugify(Strip(text, Whitespace)))
    ensures Normalize(text, libs) == Tidy(libs.slugify(Strip(text, Whitespace)))
    ensures Tidied(Normalize(text, libs))
  {
    var slug := libs.slugify(Strip(text, Whitespace));
    TidyKeepsAscii(slug);
    TidyIsTidied(slug);
  }

  // ---------------------------------------------------------------------------
  // Splitting the --path argument
  // ---------------------------------------------------------------------------

  /** A backslash followed by a space: a space that belongs to a path. */
  const EscapedSpace: string := "\\ "

  /** The marker an escaped space is parked under while the argument is split. */
  const Placeholder: string := "!@#"

  /**
   * The paths named by the `--path` argument. An empty argument names none.
   * Otherwise escaped spaces are parked under the placeholder, the argument is
   * cut at every remaining space, the placeholder becomes a space again in each
   * piece and, except on Windows, every backslash is then deleted.
   */
  function SplitPathArgument(arg: string, onWindows: bool): seq<string> {
    if arg == [] then []
    else
      var pieces := Split(Replace(arg, EscapedSpace, Placeholder), ' ');
      var restored := ReplaceEach(pieces, Placeholder, " ");
      if onWindows then restored else ReplaceEach(restored, "\\", "")
  }

  /** A leading placeholder after the first character comes from the argument itself. */
  lemma PlaceholderAfterFirst(arg: string)
    requires arg != [] && !StartsWith(arg, EscapedSpace)
    ensures StartsWith([arg[0]] + Replace(arg[1..], EscapedSpace, Placeholder), Placeholder)
        ==> StartsWith(arg, Placeholder)
  {
    var t := [arg[0]] + Replace(arg[1..], EscapedSpace, Placeholder);
    if StartsWith(t, Placeholder) {
      var u := Replace(arg[1..], EscapedSpace, Placeholder);
      assert t[..3] == Placeholder;
      assert t[1] == '@' && t[2] == '#';
      // u starts with '@', which is not where an escaped space would put '!'
      assert u[0] == '@' && u[1] == '#';
      assert !StartsWith(arg[1..], EscapedSpace);
      assert arg[1] == '@';
      var v := Replace(arg[2..], EscapedSpace, Placeholder);
      assert arg[1..][1..] == arg[2..];
      assert u == [arg[1]] + v;
      assert v[0] == '#';
      assert !StartsWith(arg[2..], EscapedSpace);
      assert arg[2] == '#';
      assert arg[..3] == Placeholder;
    }
  }

  /**
   * When the argument does not itself contain the placeholder, parking escaped
   * spaces and then restoring them is the same as unescaping them directly.
   */
  lemma {:induction false} PlaceholderRoundTrip(arg: string)
    requires !Contains(arg, Placeholder)
    ensures Replace(Replace(arg, EscapedSpace, Placeholder), Placeholder, " ") == Replace(arg, EscapedSpace, " ")
    decreases |arg|
  {
    if StartsWith(arg, EscapedSpace) {
      ContainsInSuffix(arg, 2, Placeholder);
      PlaceholderRoundTrip(arg[2..]);
      var t := Placeholder + Replace(arg[2..], EscapedSpace, Placeholder);
      assert StartsWith(t, Placeholder);
      assert t[3..] == Replace(arg[2..], EscapedSpace, Placeholder);
    } else if arg != [] {
      ContainsInSuffix(arg, 1, Placeholder);
      PlaceholderRoundTrip(arg[1..]);
      PlaceholderAfterFirst(arg);
      var t := [arg[0]] + Replace(arg[1..], EscapedSpace, Placeholder);
      assert t[1..] == Replace(arg[1..], EscapedSpace, Placeholder);
    }
  }

  /**
   * Joining the paths with single spaces gives back the argument with every
   * escaped space unescaped (and, off Windows, every backslash deleted): an
   * escaped space never separates two paths, and every other space separates
   * exactly two. The argument must not contain the placeholder itself.
   */
  lemma SplitPathArgumentJoin(arg: string)
    requires !Contains(arg, Placeholder)
    ensures Join(SplitPathArgument(arg, true), " ") == Replace(arg, EscapedSpace, " ")
    ensures Join(SplitPathArgument(arg, false), " ") == Replace(Replace(arg, EscapedSpace, " "), "\\", "")
  {
    var parked := Replace(arg, EscapedSpace, Placeholder);
    var pieces := Split(parked, ' ');
    var restored := ReplaceEach(pieces, Placeholder, " ");
    JoinSplit(parked, ' ');
    ReplaceJoin(pieces, ' ', Placeholder, " ");
    PlaceholderRoundTrip(arg);
    ReplaceJoin(restored, ' ', "\\", "");
  }

  /** Spaces of the argument that are not escaped by a backslash. */
  function UnescapedSpaces(arg: string): nat
    decreases |arg|
  {
    if StartsWith(arg, EscapedSpace) then UnescapedSpaces(arg[2..])
    else if arg == [] then 0
    else (if arg[0] == ' ' then 1 else 0) + UnescapedSpaces(arg[1..])
  }

  lemma {:induction false} CountConcat(a: string, b: string, c: char)
    ensures Count(a + b, c) == Count(a, c) + Count(b, c)
    decreases |a|
  {
    if a == [] {
      assert a + b == b;
    } else {
      assert (a + b)[0] == a[0];
      assert (a + b)[1..] == a[1..] + b;
      CountConcat(a[1..], b, c);
    }
  }

  lemma {:induction false} ParkedSpaces(arg: string)
    ensures Count(Replace(arg, EscapedSpace, Placeholder), ' ') == UnescapedSpaces(arg)
    decreases |arg|
  {
    if StartsWith(arg, EscapedSpace) {
      ParkedSpaces(arg[2..]);
      CountConcat(Placeholder, Replace(arg[2..], EscapedSpace, Placeholder), ' ');
    } else if arg != [] {
      ParkedSpaces(arg[1..]);
      CountConcat([arg[0]], Replace(arg[1..], EscapedSpace, Placeholder), ' ');
    }
  }

  /** An empty argument names no path; any other names one more than it has unescaped spaces. */
  lemma SplitPathArgumentCount(arg: string, onWindows: bool)
    ensures arg == [] ==> SplitPathArgument(arg, onWindows) == []
    ensures arg != [] ==> |SplitPathArgument(arg, onWindows)| == UnescapedSpaces(arg) + 1
  {
    ParkedSpaces(arg);
  }

  /** Off Windows no path keeps a backslash; on Windows backslashes are kept. */
  lemma SplitPathArgumentBackslashes(arg: string)
    ensures forall p :: p in SplitPathArgument(arg, false) ==> '\\' !in p
    ensures SplitPathArgument(arg, true)
         == if arg == [] then [] else ReplaceEach(Split(Replace(arg, EscapedSpace, Placeholder), ' '), Placeholder, " ")
  {
    var restored := ReplaceEach(Split(Replace(arg, EscapedSpace, Placeholder), ' '), Placeholder, " ");
    forall i | 0 <= i < |restored| ensures '\\' !in Replace(restored[i], "\\", "") {
      ReplaceCharRemoves(restored[i], '\\', "");
    }
  }

  // ---------------------------------------------------------------------------
  // The new name of a file
  // ---------------------------------------------------------------------------

  /**
   * The new name of the file at `path`: its normalised stem and, when it has a
   * suffix, a dot and the normalised suffix (dot included before normalising).
   */
  function RenamedName(path: string, libs: Libraries): string {
    var name := PurePath.Name(path);
    var stem, suffix := PurePath.Stem(name), PurePath.Suffix(name);
    if suffix != [] then Normalize(stem, libs) + "." + Normalize(suffix, libs)
    else Normalize(stem, libs)
  }

  /** A dot between two strings without `--` does not create one. */
  lemma {:induction false} NoDoubleHyphenAroundDot(a: string, b: string)
    requires !Contains(a, "--") && !Contains(b, "--")
    ensures !Contains(a + "." + b, "--")
    decreases |a|
  {
    var s := a + "." + b;
    if a == [] {
      assert s[0] == '.';
      assert s[1..] == b;
    } else {
      assert s[1..] == a[1..] + "." + b;
      NoDoubleHyphenAroundDot(a[1..], b);
      if |a| >= 2 {
        assert s[..2] == a[..2];
      } else {
        assert s[1] == '.';
      }
    }
  }

  /** Two tidied names joined by a dot have no `_` and no `--`. */
  lemma DotJoinTidied(a: string, b: string)
    requires Tidied(a) && Tidied(b)
    ensures '_' !in a + "." + b && !Contains(a + "." + b, "--")
  {
    NoDoubleHyphenAroundDot(a, b);
  }

  /**
   * Under the same assumptions on the libraries as `NormalizeTidied`, a renamed
   * file name has no `_` and no `--`; with a suffix it is the tidied stem, a dot
   * and the tidied suffix, and without one it is the tidied stem.
   */
  lemma RenamedNameTidied(path: string, libs: Libraries)
    requires FixesAscii(libs.unidecode)
    requires IsAscii(libs.slugify(Strip(PurePath.Stem(PurePath.Name(path)), Whitespace)))
    requires IsAscii(libs.slugify(Strip(PurePath.Suffix(PurePath.Name(path)), Whitespace)))
    ensures '_' !in RenamedName(path, libs) && !Contains(RenamedName(path, libs), "--")
    ensures var name := PurePath.Name(path);
      var a, b := Normalize(PurePath.Stem(name), libs), Normalize(PurePath.Suffix(name), libs);
      && Tidied(a) && Tidied(b)
      && RenamedName(path, libs) == if PurePath.Suffix(name) != [] then a + "." + b else a
  {
    var name := PurePath.Name(path);
    var stem, suffix := PurePath.Stem(name), PurePath.Suffix(name);
    NormalizeTidied(stem, libs);
    NormalizeTidied(suffix, libs);
    DotJoinTidied(Normalize(stem, libs), Normalize(suffix, libs));
  }

  // ---------------------------------------------------------------------------
  // The new name of a saved e-mail
  // ---------------------------------------------------------------------------

  /** `\d`, restricted to the ASCII digits. */
  predicate IsDigit(c: char) {
    '0' <= c <= '9'
  }

  /** Length of the longest prefix of digits. */
  function DigitRun(s: string): (n: nat)
    ensures n <= |s|
    ensures forall k :: 0 <= k < n ==> IsDigit(s[k])
    ensures n == |s| || !IsDigit(s[n])
    decreases |s|
  {
    if s != [] && IsDigit(s[0]) then 1 + DigitRun(s[1..]) else 0
  }

  /**
   * Length of the match of `re.match("20\d+", stem)`, or 0 when there is none:
   * `20` and at least one more digit, taking the whole run of digits.
   */
  function TimestampLength(stem: string): (n: nat)
    ensures n <= |stem|
    ensures n > 0 <==> |stem| >= 3 && stem[..2] == "20" && IsDigit(stem[2])
    ensures forall k :: 0 <= k < n ==> IsDigit(stem[k])
    ensures n > 0 ==> n == |stem| || !IsDigit(stem[n])
  {
    if StartsWith(stem, "20") && |stem| >= 3 && IsDigit(stem[2]) then 2 + DigitRun(stem[2..]) else 0
  }

  /** `p` repeated `n` times. */
  function Repeat(p: string, n: nat): string {
    if n == 0 then [] else p + Repeat(p, n - 1)
  }

  /** Length of the longest prefix of `s` made of whole copies of `p`. */
  function RepeatedPrefixLength(s: string, p: string): (k: nat)
    requires p != []
    ensures k <= |s|
    ensures !StartsWith(s[k..], p)
    decreases |s|
  {
    if StartsWith(s, p) then |p| + RepeatedPrefixLength(s[|p|..], p) else 0
  }

  /** `re.sub("^(p)+", "", s)`: removes as many copies of `p` from the front as there are. */
  function StripLeadingRepeats(s: string, p: string): (r: string)
    requires p != []
    ensures |r| <= |s|
    ensures !StartsWith(r, p)
  {
    s[RepeatedPrefixLength(s, p)..]
  }

  /**
   * What was removed is `p` a whole number of times, so when anything was
   * removed the character just before the rest is the last one of `p`.
   */
  lemma {:induction false} LeadingRepeatsRemoved(s: string, p: string) returns (n: nat)
    requires p != []
    ensures s[..RepeatedPrefixLength(s, p)] == Repeat(p, n)
    ensures RepeatedPrefixLength(s, p) > 0 ==> s[RepeatedPrefixLength(s, p) - 1] == p[|p| - 1]
    decreases |s|
  {
    if StartsWith(s, p) {
      var s' := s[|p|..];
      var m := LeadingRepeatsRemoved(s', p);
      n := m + 1;
      var k' := RepeatedPrefixLength(s', p);
      assert s[..|p| + k'] == p + s'[..k'];
      if k' > 0 {
        assert s'[k' - 1] == s[|p| + k' - 1];
      }
    } else {
      n := 0;
    }
  }

  /** Strips leading runs of `re-`, then of `fw-`, then of `fwd-`, in that order. */
  function StripReplyPrefixes(s: string): string {
    StripLeadingRepeats(StripLeadingRepeats(StripLeadingRepeats(s, "re-"), "fw-"), "fwd-")
  }

  /**
   * The result never starts with `fwd-`, and what was cut off is some `re-`s,
   * then some `fw-`s, then some `fwd-`s.
   */
  lemma ReplyPrefixesRemoved(s: string) returns (a: nat, b: nat, c: nat)
    ensures !StartsWith(StripReplyPrefixes(s), "fwd-")
    ensures s == Repeat("re-", a) + Repeat("fw-", b) + Repeat("fwd-", c) + StripReplyPrefixes(s)
  {
    a, b, c := ThreeStripsRemoved(s, "re-", "fw-", "fwd-");
  }

  /** The input is the removed repetitions followed by what is left. */
  lemma StripDecomposes(s: string, p: string) returns (n: nat)
    requires p != []
    ensures s == Repeat(p, n) + StripLeadingRepeats(s, p)
  {
    n := LeadingRepeatsRemoved(s, p);
    var k := RepeatedPrefixLength(s, p);
    assert s == s[..k] + s[k..];
  }

  /** Three rounds of prefix removal cut off three repetitions, in order. */
  lemma ThreeStripsRemoved(s: string, p: string, q: string, w: string) returns (a: nat, b: nat, c: nat)
    requires p != [] && q != [] && w != []
    ensures var r := StripLeadingRepeats(StripLeadingRepeats(StripLeadingRepeats(s, p), q), w);
      s == Repeat(p, a) + Repeat(q, b) + Repeat(w, c) + r
  {
    var s1 := StripLeadingRepeats(s, p);
    var s2 := StripLeadingRepeats(s1, q);
    a := StripDecomposes(s, p);
    b := StripDecomposes(s1, q);
    c := StripDecomposes(s2, w);
    Regroup(Repeat(p, a), Repeat(q, b), Repeat(w, c), StripLeadingRepeats(s2, w));
  }

  /** Regrouping four concatenated strings, stated apart so the solver sees only strings. */
  lemma Regroup(x: string, y: string, z: string, r: string)
    ensures x + (y + (z + r)) == x + y + z + r
  {
  }

  /** A string that does not start with `p` loses nothing. */
  lemma StripNoCopy(s: string, p: string)
    requires p != [] && !StartsWith(s, p)
    ensures StripLeadingRepeats(s, p) == s
  {
  }

  /** A string with exactly one leading copy of `p` loses just that copy. */
  lemma StripOneCopy(s: string, p: string)
    requires p != [] && StartsWith(s, p) && !StartsWith(s[|p|..], p)
    ensures StripLeadingRepeats(s, p) == s[|p|..]
  {
    assert RepeatedPrefixLength(s[|p|..], p) == 0;
    assert RepeatedPrefixLength(s, p) == |p|;
  }

  /** Because the steps run in that order, a `re-` behind a `fw-` survives. */
  lemma ReplyPrefixOrderRe()
    ensures StripReplyPrefixes("fw-re-x") == "re-x"
  {
    var s, rest := "fw-re-x", "re-x";
    assert s[0] != "re-"[0];
    StripNoCopy(s, "re-");
    assert s[..3] == "fw-" && s[3..] == rest;
    assert rest[0] != "fw-"[0] && rest[0] != "fwd-"[0];
    StripOneCopy(s, "fw-");
    StripNoCopy(rest, "fwd-");
  }

  /** Because the steps run in that order, a `fw-` behind a `fwd-` survives. */
  lemma ReplyPrefixOrderFw()
    ensures StripReplyPrefixes("fwd-fw-x") == "fw-x"
  {
    var s, rest := "fwd-fw-x", "fw-x";
    assert s[0] != "re-"[0];
    StripNoCopy(s, "re-");
    assert s[2] != "fw-"[2];
    StripNoCopy(s, "fw-");
    assert s[..4] == "fwd-" && s[4..] == rest;
    assert rest[2] != "fwd-"[2];
    StripOneCopy(s, "fwd-");
  }

  /**
   * The part of an e-mail's new name between the received timestamp and the
   * suffix: the stem without a leading `20…` timestamp, normalised, with reply
   * and forward prefixes removed.
   */
  function EmailRemainder(stem: string, libs: Libraries): string {
    StripReplyPrefixes(Normalize(stem[TimestampLength(stem)..], libs))
  }

  /** A slug that does not begin with `-` and keeps the other tidied properties. */
  predicate SlugTail(s: string) {
    && '_' !in s
    && !Contains(s, "--")
    && (s == [] || (s[0] != '-' && s[|s| - 1] !in DotHyphen))
  }

  /** An occurrence at a known position is an occurrence. */
  lemma {:induction false} ContainsAt(s: string, k: nat, p: string)
    requires k + |p| <= |s| && s[k..k + |p|] == p
    ensures Contains(s, p)
    decreases k
  {
    if k > 0 {
      assert s[1..][k - 1..k - 1 + |p|] == s[k..k + |p|];
      ContainsAt(s[1..], k - 1, p);
    }
  }

  /** Removing leading copies of a prefix that ends in `-` keeps a string a slug tail. */
  lemma StripRepeatsKeepsSlugTail(s: string, p: string)
    requires p != [] && p[|p| - 1] == '-'
    requires SlugTail(s)
    ensures SlugTail(StripLeadingRepeats(s, p))
  {
    var k := RepeatedPrefixLength(s, p);
    var r := s[k..];
    ContainsInSuffix(s, k, "--");
    if k > 0 && r != [] {
      var _ := LeadingRepeatsRemoved(s, p);
      assert s[k - 1] == '-';
      assert s[k] == r[0];
      if r[0] == '-' {
        assert s[k - 1..k + 1] == "--";
        ContainsAt(s, k - 1, "--");
      }
    }
  }

  /** Removing the reply and forward prefixes keeps a slug tail a slug tail. */
  lemma ReplyStripKeepsSlugTail(s: string)
    requires SlugTail(s)
    ensures SlugTail(StripReplyPrefixes(s))
  {
    StripRepeatsKeepsSlugTail(s, "re-");
    var s1 := StripLeadingRepeats(s, "re-");
    StripRepeatsKeepsSlugTail(s1, "fw-");
    StripRepeatsKeepsSlugTail(StripLeadingRepeats(s1, "fw-"), "fwd-");
  }

  /**
   * Under the library assumptions, the remainder of an e-mail name is a slug
   * that neither starts with `-` nor with `fwd-`.
   */
  lemma EmailRemainderShape(stem: string, libs: Libraries)
    requires FixesAscii(libs.unidecode)
    requires IsAscii(libs.slugify(Strip(stem[TimestampLength(stem)..], Whitespace)))
    ensures SlugTail(EmailRemainder(stem, libs))
    ensures !StartsWith(EmailRemainder(stem, libs), "fwd-")
  {
    var x := stem[TimestampLength(stem)..];
    NormalizeTidied(x, libs);
    var t := Normalize(x, libs);
    assert SlugTail(t);
    ReplyStripKeepsSlugTail(t);
  }

  /**
   * The name the file at `path` is renamed to. For an `.eml` file with a
   * received timestamp it is `received-remainder.eml`, the suffix kept as it
   * is; otherwise it is `RenamedName`.
   */
  function FinalName(path: string, received: string, libs: Libraries): string {
    var name := PurePath.Name(path);
    var suffix := PurePath.Suffix(name);
    if suffix == ".eml" && received != "" then
      received + "-" + EmailRemainder(PurePath.Stem(name), libs) + suffix
    else RenamedName(path, libs)
  }

  /**
   * An e-mail with a received timestamp is named by the timestamp, a hyphen,
   * a remainder that does not start with `fwd-`, and `.eml`; any other file,
   * or an e-mail without a timestamp, gets the ordinary renamed name.
   */
  lemma FinalNameShape(path: string, received: string, libs: Libraries)
    ensures var name := PurePath.Name(path);
      var r := FinalName(path, received, libs);
      if PurePath.Suffix(name) == ".eml" && received != "" then
        && StartsWith(r, received + "-")
        && |r| >= |received| + 5 && r[|r| - 4..] == ".eml"
        && r[|received| + 1..|r| - 4] == EmailRemainder(PurePath.Stem(name), libs)
        && !StartsWith(r[|received| + 1..|r| - 4], "fwd-")
      else r == RenamedName(path, libs)
  {
    var name := PurePath.Name(path);
    var stem := PurePath.Stem(name);
    var rem := EmailRemainder(stem, libs);
    var _, _, _ := ReplyPrefixesRemoved(Normalize(stem[TimestampLength(stem)..], libs));
    if PurePath.Suffix(name) == ".eml" && received != "" {
      var r := received + "-" + rem + ".eml";
      assert r[..|received| + 1] == received + "-";
      assert r[|received| + 1..|r| - 4] == rem;
    }
  }

  /**
   * Under the library assumptions, the part of an e-mail name between the
   * timestamp's `-` and `.eml` is a slug: no `_`, no `--`, no leading `-` or
   * `fwd-`, and no trailing `.` or `-`.
   */
  lemma EmailNameSlug(path: string, received: string, libs: Libraries)
    requires PurePath.Suffix(PurePath.Name(path)) == ".eml" && received != ""
    requires FixesAscii(libs.unidecode)
    requires var stem := PurePath.Stem(PurePath.Name(path));
      IsAscii(libs.slugify(Strip(stem[TimestampLength(stem)..], Whitespace)))
    ensures var r := FinalName(path, received, libs);
      && |r| >= |received| + 5
      && r[..|received| + 1] == received + "-"
      && r[|r| - 4..] == ".eml"
      && SlugTail(r[|received| + 1..|r| - 4])
      && !StartsWith(r[|received| + 1..|r| - 4], "fwd-")
  {
    var stem := PurePath.Stem(PurePath.Name(path));
    EmailRemainderShape(stem, libs);
    FinalNameShape(path, received, libs);
  }
}
