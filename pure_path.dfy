/**
 * The parts of `pathlib.PurePosixPath` the renamer reads from a path:
 * its final component (`name`), and that component split at its last dot
 * into `stem` and `suffix`.
 */
module PurePath {
  import opened PyStr

  /** The components pathlib keeps out of a `/`-split: empty ones and `.` are dropped. */
  function Parts(pieces: seq<string>): (parts: seq<string>)
    ensures forall i :: 0 <= i < |parts| ==> parts[i] in pieces && parts[i] != [] && parts[i] != "."
    ensures forall x :: x in pieces && x != [] && x != "." ==> x in parts
    decreases |pieces|
  {
    if pieces == [] then []
    else (if pieces[0] == [] || pieces[0] == "." then [] else [pieces[0]]) + Parts(pieces[1..])
  }

  /** The kept components of two lists of pieces are those of each list, in order. */
  lemma {:induction false} PartsConcat(a: seq<string>, b: seq<string>)
    ensures Parts(a + b) == Parts(a) + Parts(b)
    decreases |a|
  {
    if a == [] {
      assert a + b == b;
    } else {
      assert (a + b)[0] == a[0];
      assert (a + b)[1..] == a[1..] + b;
      PartsConcat(a[1..], b);
    }
  }

  /** `PurePosixPath(p).name`: the last kept component, or `""` when there is none. */
  function Name(p: string): (name: string)
    ensures '/' !in name && name != "."
    ensures name == [] || name in Split(p, '/')
  {
    var parts := Parts(Split(p, '/'));
    if parts == [] then [] else parts[|parts| - 1]
  }

  /**
   * The name of a path is its last component: a component `n` (non-empty, no
   * `/`, not `.`) is the name of `n` itself and of `d/n` for any directory `d`.
   */
  lemma NameOfLastComponent(d: string, n: string)
    requires n != [] && '/' !in n && n != "."
    ensures Name(n) == n
    ensures Name(d + "/" + n) == n
  {
    SplitWithoutSeparator(n, '/');
    SplitConcat(d, n, '/');
    assert d + "/" + n == d + ['/'] + n;
    PartsConcat(Split(d, '/'), [n]);
    assert Parts([n]) == [n];
  }

  /** A trailing `/` does not change the name: `Path("d/n/").name == "n"`. */
  lemma NameIgnoresTrailingSlash(p: string)
    ensures Name(p + "/") == Name(p)
  {
    SplitConcat(p, [], '/');
    assert p + "/" + [] == p + "/";
    PartsConcat(Split(p, '/'), [[]]);
    assert Parts([[]]) == [];
    assert Split(p, '/') + [[]] == Split(p + "/", '/');
  }

  /** `s.rfind(c)`: the position of the last `c` in `s`, or -1. */
  function RFind(s: string, c: char): (i: int)
    ensures -1 <= i < |s|
    ensures i >= 0 ==> s[i] == c
    ensures forall k :: i < k < |s| ==> s[k] != c
    decreases |s|
  {
    if s == [] then -1
    else if s[|s| - 1] == c then |s| - 1
    else RFind(s[..|s| - 1], c)
  }

  /** `.suffix` of a path whose name is `name`: from the last dot on, if that dot is neither first nor last. */
  function Suffix(name: string): string {
    var i := RFind(name, '.');
    if 0 < i < |name| - 1 then name[i..] else []
  }

  /** `.stem` of a path whose name is `name`: the name without its suffix. */
  function Stem(name: string): string {
    var i := RFind(name, '.');
    if 0 < i < |name| - 1 then name[..i] else name
  }

  /**
   * The stem and the suffix put back together give the name; a suffix is a dot
   * followed by at least one character and no further dot, and there is one
   * exactly when the name has a dot after its first character and does not end
   * in a dot (so `.bashrc` and `notes.` have none).
   */
  lemma StemSuffix(name: string)
    ensures Stem(name) + Suffix(name) == name
    ensures var x := Suffix(name);
      x == [] || (|x| >= 2 && x[0] == '.' && '.' !in x[1..] && Stem(name) != [])
    ensures Suffix(name) != [] <==> name != [] && name[|name| - 1] != '.' && '.' in name[1..]
  {
    var i := RFind(name, '.');
    if 0 < i < |name| - 1 {
      assert name[..i] + name[i..] == name;
      assert name[1..][i - 1] == '.';
      forall k | 0 <= k < |name[i..][1..]| ensures name[i..][1..][k] != '.' {
        assert name[i..][1..][k] == name[i + 1 + k];
      }
    } else if name != [] && name[|name| - 1] != '.' {
      // the last dot, if any, is the first character
      forall k | 0 <= k < |name[1..]| ensures name[1..][k] != '.' {
        assert name[1..][k] == name[k + 1];
      }
    }
  }
}
