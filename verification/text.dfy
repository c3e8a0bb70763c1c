/** The handful of Python `str` operations the classifier relies on:
    `strip()`, `strip(chars)`, `split(sep)`, `startswith`, `endswith`. */
module Text {

  /** The characters for which Python's `str.isspace()` holds. Both
      `str.strip()` without arguments and the `\s` class of a `str`
      regular expression use exactly these. */
  predicate IsSpace(c: char) {
    || '\t' <= c <= '\r'
    || '\U{1C}' <= c <= ' '
    || c == '\U{85}' || c == '\U{A0}' || c == '\U{1680}'
    || '\U{2000}' <= c <= '\U{200A}'
    || c == '\U{2028}' || c == '\U{2029}' || c == '\U{202F}' || c == '\U{205F}' || c == '\U{3000}'
  }

  predicate AllAre(s: string, p: char -> bool) {
    forall i :: 0 <= i < |s| ==> p(s[i])
  }

  /** Drops the longest prefix of characters satisfying `drop`. */
  function TrimStart(s: string, drop: char -> bool): (r: string)
    ensures |r| <= |s| && r == s[|s| - |r|..]
    ensures AllAre(s[..|s| - |r|], drop)
    ensures r == [] || !drop(r[0])
    decreases |s|
  {
    if |s| > 0 && drop(s[0]) then TrimStart(s[1..], drop) else s
  }

  /** Drops the longest suffix of characters satisfying `drop`. */
  function TrimEnd(s: string, drop: char -> bool): (r: string)
    ensures |r| <= |s| && r == s[..|r|]
    ensures AllAre(s[|r|..], drop)
    ensures r == [] || !drop(r[|r| - 1])
    decreases |s|
  {
    if |s| > 0 && drop(s[|s| - 1]) then TrimEnd(s[..|s| - 1], drop) else s
  }

  /** Both ends trimmed: what remains is a slice of `s` that neither
      starts nor ends with a dropped character, and only dropped
      characters were removed. */
  function Trim(s: string, drop: char -> bool): (r: string)
    ensures exists i, j :: 0 <= i <= j <= |s| && r == s[i..j] && AllAre(s[..i], drop) && AllAre(s[j..], drop)
    ensures r == [] || (!drop(r[0]) && !drop(r[|r| - 1]))
  {
    var t := TrimStart(s, drop);
    var r := TrimEnd(t, drop);
    var i := |s| - |t|;
    assert r == s[i..i + |r|];
    assert s[..i] == s[..|s| - |t|];
    assert s[i + |r|..] == t[|r|..];
    assert AllAre(s[..i], drop) && AllAre(s[i + |r|..], drop);
    r
  }

  /** Python's `s.strip()`. */
  function Strip(s: string): string {
    Trim(s, IsSpace)
  }

  /** Trimming only removes characters. */
  lemma TrimKeepsOut(s: string, drop: char -> bool, c: char)
    requires c !in s
    ensures c !in Trim(s, drop)
  {
    var i, j :| 0 <= i <= j <= |s| && Trim(s, drop) == s[i..j];
    forall k | 0 <= k < j - i ensures s[i..j][k] != c {
      assert s[i..j][k] == s[i + k];
    }
  }

  /** Membership in `chars`, as a predicate on characters. */
  function InSet(chars: set<char>): char -> bool {
    c => c in chars
  }

  /** Python's `s.strip(chars)`. */
  function StripChars(s: string, chars: set<char>): string {
    Trim(s, InSet(chars))
  }

  /** A string made of a core flanked by dropped characters on both sides,
      where the core neither starts nor ends with one, trims to that core. */
  lemma TrimUnique(a: string, m: string, b: string, drop: char -> bool)
    requires AllAre(a, drop) && AllAre(b, drop)
    requires m == [] || (!drop(m[0]) && !drop(m[|m| - 1]))
    ensures Trim(a + m + b, drop) == m
  {
    if m == [] {
      assert AllAre(a + b, drop) by {
        forall k | 0 <= k < |a + b| ensures drop((a + b)[k]) {
          if k >= |a| { assert (a + b)[k] == b[k - |a|]; }
        }
      }
      TrimStartPrefix(a + b, [], drop);
      assert a + m + b == (a + b) + [];
    } else {
      TrimStartPrefix(a, m + b, drop);
      assert a + m + b == a + (m + b);
      TrimEndSuffix(m, b, drop);
    }
  }

  /** The same for `strip(chars)`. */
  lemma StripCharsUnique(a: string, m: string, b: string, chars: set<char>)
    requires forall i | 0 <= i < |a| :: a[i] in chars
    requires forall i | 0 <= i < |b| :: b[i] in chars
    requires m == [] || (m[0] !in chars && m[|m| - 1] !in chars)
    ensures StripChars(a + m + b, chars) == m
  {
    TrimUnique(a, m, b, InSet(chars));
  }

  lemma {:induction false} TrimStartPrefix(a: string, rest: string, drop: char -> bool)
    requires AllAre(a, drop)
    requires rest == [] || !drop(rest[0])
    ensures TrimStart(a + rest, drop) == rest
    decreases |a|
  {
    if |a| > 0 {
      assert (a + rest)[1..] == a[1..] + rest;
      TrimStartPrefix(a[1..], rest, drop);
    } else {
      assert a + rest == rest;
    }
  }

  lemma {:induction false} TrimEndSuffix(m: string, b: string, drop: char -> bool)
    requires AllAre(b, drop)
    requires m == [] || !drop(m[|m| - 1])
    ensures TrimEnd(m + b, drop) == m
    decreases |b|
  {
    if |b| > 0 {
      assert (m + b)[..|m + b| - 1] == m + b[..|b| - 1];
      TrimEndSuffix(m, b[..|b| - 1], drop);
    } else {
      assert m + b == m;
    }
  }

  predicate StartsWith(s: string, prefix: string) {
    |prefix| <= |s| && s[..|prefix|] == prefix
  }

  predicate EndsWith(s: string, suffix: string) {
    |suffix| <= |s| && s[|s| - |suffix|..] == suffix
  }

  /** Position of the first occurrence of `c` in `s`. */
  function IndexOf(s: string, c: char): (i: nat)
    requires c in s
    ensures i < |s| && s[i] == c && c !in s[..i]
  {
    if s[0] == c then 0
    else
      assert s == [s[0]] + s[1..];
      var i := IndexOf(s[1..], c);
      assert s[..i + 1] == [s[0]] + s[1..][..i];
      i + 1
  }

  /** `sep.join(parts)`. */
  function Join(parts: seq<string>, sep: char): string
    requires |parts| >= 1
  {
    if |parts| == 1 then parts[0] else parts[0] + [sep] + Join(parts[1..], sep)
  }

  /** Python's `s.split(sep)` for a one-character separator: never empty,
      no piece holds the separator, and joining the pieces gives `s` back. */
  function Split(s: string, sep: char): (parts: seq<string>)
    ensures |parts| >= 1
    ensures forall i :: 0 <= i < |parts| ==> sep !in parts[i]
    ensures Join(parts, sep) == s
    decreases |s|
  {
    if sep !in s then [s]
    else
      var i := IndexOf(s, sep);
      var rest := Split(s[i + 1..], sep);
      assert s == s[..i] + [sep] + s[i + 1..];
      [s[..i]] + rest
  }

  /** Splitting undoes joining pieces that hold no separator. */
  lemma {:induction false} SplitJoin(parts: seq<string>, sep: char)
    requires |parts| >= 1
    requires forall i :: 0 <= i < |parts| ==> sep !in parts[i]
    ensures Split(Join(parts, sep), sep) == parts
    decreases |parts|
  {
    if |parts| > 1 {
      var s := Join(parts, sep);
      assert s == parts[0] + [sep] + Join(parts[1..], sep);
      assert s[|parts[0]|] == sep;
      assert s[..|parts[0]|] == parts[0];
      assert sep in s;
      var i := IndexOf(s, sep);
      assert i <= |parts[0]| by {
        assert sep !in s[..i];
      }
      assert i == |parts[0]|;
      assert s[i + 1..] == Join(parts[1..], sep);
      SplitJoin(parts[1..], sep);
    }
  }
}
