/**
 * The string operations the engine relies on: the name tests behind its glob
 * patterns, `PurePath.suffix` and `with_suffix`, `"-".join`, and the ordering
 * Python's `sorted` uses on names.
 */
module Names {
  import opened Common

  predicate StartsWith(s: string, prefix: string) {
    |prefix| <= |s| && s[..|prefix|] == prefix
  }

  predicate EndsWith(s: string, suffix: string) {
    |suffix| <= |s| && s[|s| - |suffix|..] == suffix
  }

  /** Python's `part in s` on strings. */
  predicate Contains(s: string, part: string)
    decreases |s|
  {
    StartsWith(s, part) || (|s| > 0 && Contains(s[1..], part))
  }

  /** `part` occurs in `s` at offset `k`. */
  predicate OccursAt(s: string, part: string, k: nat) {
    k + |part| <= |s| && s[k..k + |part|] == part
  }

  /** An occurrence of `part` at offset `k` of `s` makes `Contains` hold. */
  lemma {:induction false} ContainsAt(s: string, part: string, k: nat)
    requires OccursAt(s, part, k)
    ensures Contains(s, part)
    decreases k
  {
    if k > 0 {
      assert s[1..][k - 1..k - 1 + |part|] == s[k..k + |part|];
      ContainsAt(s[1..], part, k - 1);
    }
  }

  /** `Contains` finds an occurrence: it never reports a part that is not in `s`. */
  lemma {:induction false} ContainsOccurs(s: string, part: string)
    requires Contains(s, part)
    ensures exists k: nat :: OccursAt(s, part, k)
    decreases |s|
  {
    if StartsWith(s, part) {
      assert OccursAt(s, part, 0);
    } else {
      ContainsOccurs(s[1..], part);
      var k: nat :| OccursAt(s[1..], part, k);
      assert s[k + 1..k + 1 + |part|] == s[1..][k..k + |part|];
      assert OccursAt(s, part, k + 1);
    }
  }

  /** Python's `part in s`: `Contains` holds exactly when `part` occurs at some offset of `s`. */
  lemma ContainsExactly(s: string, part: string)
    ensures Contains(s, part) <==> exists k: nat :: OccursAt(s, part, k)
  {
    if Contains(s, part) {
      ContainsOccurs(s, part);
    } else {
      forall k: nat | OccursAt(s, part, k) ensures false {
        ContainsAt(s, part, k);
      }
    }
  }

  /** Lower-casing of one character; only the ASCII letters are folded. */
  function LowerChar(c: char): char {
    if 'A' <= c <= 'Z' then (c as int + 32) as char else c
  }

  /**
   * `str.lower()` on ASCII: no capital letter is left, each capital becomes
   * the small letter at the same place in the alphabet, and every other
   * character is kept.
   */
  function ToLower(s: string): (r: string)
    ensures |r| == |s|
    ensures forall i | 0 <= i < |r| :: !('A' <= r[i] <= 'Z')
    ensures forall i | 0 <= i < |s| && 'A' <= s[i] <= 'Z' :: 'a' <= r[i] <= 'z' && r[i] as int - 'a' as int == s[i] as int - 'A' as int
    ensures forall i | 0 <= i < |s| && !('A' <= s[i] <= 'Z') :: r[i] == s[i]
  {
    seq(|s|, i requires 0 <= i < |s| => LowerChar(s[i]))
  }

  /** Lower-casing a lower-cased name changes nothing. */
  lemma ToLowerIdempotent(s: string)
    ensures ToLower(ToLower(s)) == ToLower(s)
  {
    var r := ToLower(s);
    assert forall i | 0 <= i < |r| :: ToLower(r)[i] == r[i];
  }

  /** `str.rfind(c)`: the index of the last occurrence of `c`, or -1. */
  function LastIndexOf(s: string, c: char): (i: int)
    ensures -1 <= i < |s|
    ensures i >= 0 ==> s[i] == c
    ensures forall k | i < k < |s| :: s[k] != c
  {
    if |s| == 0 then -1
    else if s[|s| - 1] == c then |s| - 1
    else LastIndexOf(s[..|s| - 1], c)
  }

  /** `str.find(c)`: the index of the first occurrence of `c`, or -1. */
  function IndexOf(s: string, c: char): (i: int)
    ensures -1 <= i < |s|
    ensures i >= 0 ==> s[i] == c
    ensures forall k | 0 <= k < |s| && (i < 0 || k < i) :: s[k] != c
  {
    if |s| == 0 then -1
    else if s[0] == c then 0
    else
      var i := IndexOf(s[1..], c);
      if i < 0 then -1 else i + 1
  }

  /**
   * `PurePath.suffix` of a file name: the part from its last dot, unless that
   * dot begins or ends the name, in which case there is no suffix.
   */
  function Suffix(name: string): (r: string)
    ensures r != "" ==> 2 <= |r| < |name| && r[0] == '.' && EndsWith(name, r)
    ensures r != "" ==> forall k | 0 < k < |r| :: r[k] != '.'
    ensures r == "" <==> (LastIndexOf(name, '.') <= 0 || LastIndexOf(name, '.') == |name| - 1)
  {
    var i := LastIndexOf(name, '.');
    if 0 < i < |name| - 1 then name[i..] else ""
  }

  /** `PurePath.with_suffix(suffix)` on a name: the final suffix replaced, or `suffix` appended. */
  function WithSuffix(name: string, suffix: string): string {
    var current := Suffix(name);
    if current == "" then name + suffix else name[..|name| - |current|] + suffix
  }

  /** The last dot of `stem + "." + ext` is the one before `ext` when `ext` has none. */
  lemma LastDotBeforeExtension(stem: string, ext: string)
    requires '.' !in ext
    ensures LastIndexOf(stem + "." + ext, '.') == |stem|
  {
    var s := stem + "." + ext;
    var i := LastIndexOf(s, '.');
    assert s[|stem|] == '.';
    assert i >= |stem|;
  }

  /** Replacing the suffix of `stem + "." + ext` keeps the stem. */
  lemma {:induction false} WithSuffixOfExtension(stem: string, ext: string, suffix: string)
    requires '.' !in ext && |stem| > 0 && |ext| > 0
    ensures Suffix(stem + "." + ext) == "." + ext
    ensures WithSuffix(stem + "." + ext, suffix) == stem + suffix
  {
    var s := stem + "." + ext;
    LastDotBeforeExtension(stem, ext);
    assert s[|stem|..] == "." + ext;
    assert s[..|s| - |"." + ext|] == stem;
  }

  /** `sep.join(parts)` for a one-character separator. */
  function Join(parts: seq<string>, sep: char): string {
    if |parts| == 0 then ""
    else if |parts| == 1 then parts[0]
    else parts[0] + [sep] + Join(parts[1..], sep)
  }

  /** `s.split(sep)` for a one-character separator. */
  function Split(s: string, sep: char): (parts: seq<string>)
    ensures |parts| > 0
    decreases |s|
  {
    var i := IndexOf(s, sep);
    if i < 0 then [s] else [s[..i]] + Split(s[i + 1..], sep)
  }

  /** Splitting a join gives the parts back when no part holds the separator. */
  lemma {:induction false} SplitJoin(parts: seq<string>, sep: char)
    requires |parts| > 0
    requires forall k | 0 <= k < |parts| :: sep !in parts[k]
    ensures Split(Join(parts, sep), sep) == parts
  {
    if |parts| == 1 {
      assert IndexOf(parts[0], sep) == -1 by {
        forall k | 0 <= k < |parts[0]| ensures parts[0][k] != sep {
          assert parts[0][k] in parts[0];
        }
      }
    } else {
      var rest := Join(parts[1..], sep);
      var s := parts[0] + [sep] + rest;
      assert s[|parts[0]|] == sep;
      assert s[..|parts[0]|] == parts[0];
      assert IndexOf(s, sep) == |parts[0]| by {
        forall k | 0 <= k < |parts[0]| ensures s[k] != sep {
          assert s[k] == parts[0][k];
        }
      }
      assert s[|parts[0]| + 1..] == rest;
      SplitJoin(parts[1..], sep);
    }
  }

  /** Python's `a <= b` on `str`: code point by code point, a proper prefix first. */
  predicate AtMost(a: string, b: string)
    decreases |a|
  {
    a == [] || (b != [] && (a[0] < b[0] || (a[0] == b[0] && AtMost(a[1..], b[1..]))))
  }

  lemma {:induction false} AtMostReflexive(a: string)
    ensures AtMost(a, a)
    decreases |a|
  {
    if a != [] {
      AtMostReflexive(a[1..]);
    }
  }

  lemma {:induction false} AtMostTotal(a: string, b: string)
    ensures AtMost(a, b) || AtMost(b, a)
    decreases |a|
  {
    if a != [] && b != [] && a[0] == b[0] {
      AtMostTotal(a[1..], b[1..]);
    }
  }

  lemma {:induction false} AtMostAntisymmetric(a: string, b: string)
    requires AtMost(a, b) && AtMost(b, a)
    ensures a == b
    decreases |a|
  {
    if a != [] {
      AtMostAntisymmetric(a[1..], b[1..]);
      assert a == [a[0]] + a[1..] && b == [b[0]] + b[1..];
    }
  }

  lemma {:induction false} AtMostTransitive(a: string, b: string, c: string)
    requires AtMost(a, b) && AtMost(b, c)
    ensures AtMost(a, c)
    decreases |a|
  {
    if a != [] && a[0] == b[0] && b[0] == c[0] {
      AtMostTransitive(a[1..], b[1..], c[1..]);
    }
  }

  /** `least` is in `s` and no element of `s` is below it. */
  predicate IsLeast(least: string, s: set<string>) {
    least in s && forall x | x in s :: AtMost(least, x)
  }

  lemma {:induction false} LeastExists(s: set<string>)
    requires s != {}
    ensures exists m :: IsLeast(m, s)
    decreases |s|
  {
    var x :| x in s;
    if s != {x} {
      var rest := s - {x};
      LeastExists(rest);
      var m :| IsLeast(m, rest);
      AtMostTotal(x, m);
      if AtMost(x, m) {
        forall y | y in s ensures AtMost(x, y) {
          if y == x { AtMostReflexive(x); } else { AtMostTransitive(x, m, y); }
        }
        assert IsLeast(x, s);
      } else {
        assert IsLeast(m, s);
      }
    } else {
      AtMostReflexive(x);
      assert IsLeast(x, s);
    }
  }

  lemma LeastUnique(s: set<string>)
    ensures forall m, n | IsLeast(m, s) && IsLeast(n, s) :: m == n
  {
    forall m, n | IsLeast(m, s) && IsLeast(n, s) ensures m == n {
      AtMostAntisymmetric(m, n);
    }
  }

  /** `sorted()` of a collection of distinct names: every name once, in strictly increasing order. */
  function SortNames(s: set<string>): (r: seq<string>)
    ensures IsSortedListing(r, s)
    decreases |s|
  {
    if s == {} then []
    else
      LeastExists(s);
      LeastUnique(s);
      var m :| IsLeast(m, s);
      var rest := SortNames(s - {m});
      LeastFirst(s, m, rest);
      [m] + rest
  }

  /** `r` lists the names of `s`, each once, in strictly increasing order. */
  predicate IsSortedListing(r: seq<string>, s: set<string>) {
    && Elems(r) == s
    && |r| == |s|
    && forall i, j | 0 <= i < j < |r| :: Precedes(r[i], r[j])
  }

  /** `a < b` on `str`. */
  predicate Precedes(a: string, b: string) {
    AtMost(a, b) && a != b
  }

  /** Putting the least name before a sorted listing of the others sorts the whole set. */
  lemma LeastFirst(s: set<string>, m: string, rest: seq<string>)
    requires IsLeast(m, s) && IsSortedListing(rest, s - {m})
    ensures IsSortedListing([m] + rest, s)
  {
    var r := [m] + rest;
    assert Elems(r) == {m} + Elems(rest);
    forall j | 0 <= j < |rest| ensures Precedes(m, rest[j]) {
      assert rest[j] in Elems(rest);
    }
    forall i, j | 0 <= i < j < |r| ensures Precedes(r[i], r[j]) {
      if i == 0 {
        assert Precedes(m, rest[j - 1]);
      } else {
        assert Precedes(rest[i - 1], rest[j - 1]);
      }
    }
  }
}
