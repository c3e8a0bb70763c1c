/** The five regular expressions of the classifier, written out as
    functions over `string` with the meaning Python's `re.search` gives
    them: `^` anchors at the start, `.` is any character but a newline,
    `\s` is a character satisfying `Text.IsSpace`, `$` matches at the end or
    just before a final newline, and `\s+` is greedy and gives characters
    back one at a time when the rest of the pattern fails. */
module Patterns {
  import opened Wrappers
  import opened Text

  predicate NoNewline(s: string) {
    '\n' !in s
  }

  /** `(.+)$` matched at the start of `u`. */
  function DotsToEnd(u: string): (g: Option<string>)
    ensures g.Some? ==> |g.value| > 0 && NoNewline(g.value) && (u == g.value || u == g.value + "\n")
    ensures |u| > 0 && NoNewline(u) ==> g == Some(u)
    ensures g.None? ==> |u| == 0 || !NoNewline(u)
  {
    if |u| > 0 && NoNewline(u) then Some(u)
    else if |u| > 1 && u[|u| - 1] == '\n' && NoNewline(u[..|u| - 1]) then
      assert u == u[..|u| - 1] + "\n";
      Some(u[..|u| - 1])
    else None
  }

  /** Length of the longest run of `\s` characters at the start of `t`. */
  function LeadingSpaces(t: string): (k: nat)
    ensures k <= |t| && AllAre(t[..k], IsSpace)
    ensures k == |t| || !IsSpace(t[k])
    decreases |t|
  {
    if |t| > 0 && IsSpace(t[0]) then
      var k := LeadingSpaces(t[1..]);
      assert t[..k + 1] == [t[0]] + t[1..][..k];
      k + 1
    else 0
  }

  /** `(.+)$` tried after the first `j` characters of `t`, then after
      `j - 1`, ..., then after one: the order in which the regular
      expression engine backs off a greedy `\s+`. */
  function Backtrack(t: string, j: nat): (g: Option<string>)
    requires 1 <= j <= |t|
    ensures g.Some? ==> |g.value| > 0 && NoNewline(g.value)
    ensures g.Some? ==> exists i :: 1 <= i <= j && (t[i..] == g.value || t[i..] == g.value + "\n")
    decreases j
  {
    match DotsToEnd(t[j..])
    case Some(g) => Some(g)
    case None => if j == 1 then None else Backtrack(t, j - 1)
  }

  /** `\s+(.+)$` matched at the start of `t`; the result is the group. */
  function SpacesThenGroup(t: string): (g: Option<string>)
    ensures g.Some? ==> |g.value| > 0 && NoNewline(g.value)
    ensures g.Some? ==> exists i :: 1 <= i <= |t| && AllAre(t[..i], IsSpace) && (t[i..] == g.value || t[i..] == g.value + "\n")
  {
    var k := LeadingSpaces(t);
    if k == 0 then None
    else
      var g := Backtrack(t, k);
      if g.Some? then
        var i :| 1 <= i <= k && (t[i..] == g.value || t[i..] == g.value + "\n");
        assert t[..i] == t[..k][..i];
        g
      else g
  }

  /** `^kw\s+(.+)$`. */
  function KeywordGroup(kw: string, s: string): (g: Option<string>)
    ensures g.Some? ==> StartsWith(s, kw) && |g.value| > 0 && NoNewline(g.value)
  {
    if StartsWith(s, kw) then SpacesThenGroup(s[|kw|..]) else None
  }

  /** `^kw1\s+kw2\s+(.+)$` for a `kw2` that starts with a character other
      than whitespace, so the first `\s+` can only take the whole run. */
  function KeywordsGroup(kw1: string, kw2: string, s: string): (g: Option<string>)
    requires |kw2| > 0 && !IsSpace(kw2[0])
    ensures g.Some? ==> StartsWith(s, kw1) && |g.value| > 0 && NoNewline(g.value)
  {
    if StartsWith(s, kw1) then
      var t := s[|kw1|..];
      var k := LeadingSpaces(t);
      if k > 0 && StartsWith(t[k..], kw2) then KeywordGroup(kw2, t[k..]) else None
    else None
  }

  /** `s` is `head` followed by `group` and at most a final newline. */
  predicate Spelled(s: string, head: string, group: string) {
    s == head + group || s == head + group + "\n"
  }

  /** `s` is `head`, a nonempty run of whitespace `sp`, `group` and at
      most a final newline. */
  predicate SpacedAfter(s: string, head: string, sp: string, group: string) {
    |sp| >= 1 && AllAre(sp, IsSpace) && Spelled(s, head + sp, group)
  }

  /** What `^kw\s+(.+)$` captured: the statement is the keyword, a
      nonempty run of whitespace and the group. */
  lemma KeywordGroupSpelled(kw: string, s: string)
    requires KeywordGroup(kw, s).Some?
    ensures exists sp :: SpacedAfter(s, kw, sp, KeywordGroup(kw, s).value)
  {
    var t := s[|kw|..];
    var g := SpacesThenGroup(t).value;
    assert KeywordGroup(kw, s).value == g;
    var i :| 1 <= i <= |t| && AllAre(t[..i], IsSpace) && (t[i..] == g || t[i..] == g + "\n");
    var sp := t[..i];
    assert t == sp + t[i..];
    SpelledBy(t, sp, t[i..], g);
    assert s == kw + t by {
      assert s == s[..|kw|] + t;
    }
    SpelledAfter(kw, t, sp, g);
    assert SpacedAfter(s, kw, sp, KeywordGroup(kw, s).value);
  }

  lemma SpelledAfter(pre: string, u: string, head: string, g: string)
    requires Spelled(u, head, g)
    ensures Spelled(pre + u, pre + head, g)
  {
    if u == head + g {
      assert pre + u == (pre + head) + g;
    } else {
      assert pre + u == (pre + head) + g + "\n";
    }
  }

  lemma SpelledBy(s: string, head: string, rest: string, g: string)
    requires s == head + rest && (rest == g || rest == g + "\n")
    ensures Spelled(s, head, g)
  {
    if rest != g {
      assert head + (g + "\n") == head + g + "\n";
    }
  }

  /** The same for `^kw1\s+kw2\s+(.+)$`. */
  lemma KeywordsGroupSpelled(kw1: string, kw2: string, s: string)
    requires |kw2| > 0 && !IsSpace(kw2[0])
    requires KeywordsGroup(kw1, kw2, s).Some?
    ensures exists sp1, sp2 ::
      |sp1| >= 1 && AllAre(sp1, IsSpace) && SpacedAfter(s, kw1 + sp1 + kw2, sp2, KeywordsGroup(kw1, kw2, s).value)
  {
    var t := s[|kw1|..];
    var k := LeadingSpaces(t);
    var g := KeywordGroup(kw2, t[k..]).value;
    KeywordGroupSpelled(kw2, t[k..]);
    assert KeywordsGroup(kw1, kw2, s).value == g;
    var sp2 :| SpacedAfter(t[k..], kw2, sp2, g);
    var sp1 := t[..k];
    assert s == (kw1 + sp1) + t[k..] by {
      assert s == s[..|kw1|] + t;
      assert t == sp1 + t[k..];
    }
    SpelledAfter(kw1 + sp1, t[k..], kw2 + sp2, g);
    TwoSpaced(s, kw1, sp1, kw2, sp2, KeywordsGroup(kw1, kw2, s).value);
  }

  lemma TwoSpaced(s: string, kw1: string, sp1: string, kw2: string, sp2: string, g: string)
    requires |sp1| >= 1 && AllAre(sp1, IsSpace) && |sp2| >= 1 && AllAre(sp2, IsSpace)
    requires Spelled(s, (kw1 + sp1) + (kw2 + sp2), g)
    ensures exists a, b :: |a| >= 1 && AllAre(a, IsSpace) && SpacedAfter(s, kw1 + a + kw2, b, g)
  {
    assert (kw1 + sp1) + (kw2 + sp2) == kw1 + sp1 + kw2 + sp2;
    assert SpacedAfter(s, kw1 + sp1 + kw2, sp2, g);
  }

  /** When the keyword does not hold `c`, the group holds `c` exactly when
      the whole statement does: everything before the group is keyword or
      whitespace. */
  lemma KeywordGroupHolds(kw: string, s: string, c: char)
    requires c !in kw && !IsSpace(c) && c != '\n'
    requires KeywordGroup(kw, s).Some?
    ensures c in s <==> c in KeywordGroup(kw, s).value
  {
    var t := s[|kw|..];
    var g := SpacesThenGroup(t).value;
    assert KeywordGroup(kw, s).value == g;
    var i :| 1 <= i <= |t| && AllAre(t[..i], IsSpace) && (t[i..] == g || t[i..] == g + "\n");
    var w, rest := t[..i], t[i..];
    assert s == kw + (w + rest) by {
      assert s == s[..|kw|] + t;
      assert t == w + rest;
    }
    NotAmongSpaces(w, c);
    InParts(kw, w, rest, g, c);
  }

  lemma InParts(kw: string, w: string, rest: string, g: string, c: char)
    requires rest == g || rest == g + "\n"
    requires c != '\n' && c !in kw && c !in w
    ensures c in kw + (w + rest) <==> c in g
  {
    assert c in rest <==> c in g;
  }

  /** The same for two keywords. */
  lemma KeywordsGroupHolds(kw1: string, kw2: string, s: string, c: char)
    requires |kw2| > 0 && !IsSpace(kw2[0])
    requires c !in kw1 && c !in kw2 && !IsSpace(c) && c != '\n'
    requires KeywordsGroup(kw1, kw2, s).Some?
    ensures c in s <==> c in KeywordsGroup(kw1, kw2, s).value
  {
    var t := s[|kw1|..];
    var k := LeadingSpaces(t);
    assert s == kw1 + t[..k] + t[k..] by {
      assert s == s[..|kw1|] + t;
      assert t == t[..k] + t[k..];
    }
    NotAmongSpaces(t[..k], c);
    KeywordGroupHolds(kw2, t[k..], c);
  }

  lemma NotAmongSpaces(w: string, c: char)
    requires AllAre(w, IsSpace) && !IsSpace(c)
    ensures c !in w
  {
    forall n | 0 <= n < |w| ensures w[n] != c {
      assert IsSpace(w[n]);
    }
  }

  /** `re_impl`: `^module\s+(.+)$`. */
  function MatchImpl(stat: string): (g: Option<string>)
    ensures g.Some? ==> |g.value| > 0 && NoNewline(g.value)
    ensures g.Some? ==> exists sp :: SpacedAfter(stat, "module", sp, g.value)
  {
    var g := KeywordGroup("module", stat);
    if g.Some? then KeywordGroupSpelled("module", stat); g else g
  }


  /** `re_export`: `^export\s+module\s+(.+)$`. */
  function MatchExport(stat: string): (g: Option<string>)
    ensures g.Some? ==> |g.value| > 0 && NoNewline(g.value)
    ensures g.Some? ==> exists sp1, sp2 ::
      |sp1| >= 1 && AllAre(sp1, IsSpace) && SpacedAfter(stat, "export" + sp1 + "module", sp2, g.value)
  {
    var g := KeywordsGroup("export", "module", stat);
    if g.Some? then KeywordsGroupSpelled("export", "module", stat); g else g
  }


  /** `re_export_import`: `^export\s+import\s+(.+)$`. */
  function MatchExportImport(stat: string): (g: Option<string>)
    ensures g.Some? ==> |g.value| > 0 && NoNewline(g.value)
    ensures g.Some? ==> exists sp1, sp2 ::
      |sp1| >= 1 && AllAre(sp1, IsSpace) && SpacedAfter(stat, "export" + sp1 + "import", sp2, g.value)
  {
    var g := KeywordsGroup("export", "import", stat);
    if g.Some? then KeywordsGroupSpelled("export", "import", stat); g else g
  }


  /** `re_import`: `^import\s+(.+)$`. */
  function MatchImport(stat: string): (g: Option<string>)
    ensures g.Some? ==> |g.value| > 0 && NoNewline(g.value)
    ensures g.Some? ==> exists sp :: SpacedAfter(stat, "import", sp, g.value)
  {
    var g := KeywordGroup("import", stat);
    if g.Some? then KeywordGroupSpelled("import", stat); g else g
  }


  predicate HeaderToken(w: string) {
    && |w| >= 3
    && w[0] in {'<', '"'}
    && w[|w| - 1] in {'>', '"'}
    && NoNewline(w[1..|w| - 1])
  }

  /** `re_import_header_unit`: `^[<"]+.+[>"]+$`. The two classes and the
      dot never take a newline, so a match is an opening `<` or `"`, a
      closing `>` or `"`, and at least one character between them. */
  predicate MatchHeaderUnit(w: string): (b: bool)
    ensures b <==> exists o, h, cl :: Bracketed(w, o, h, cl)
  {
    BracketedIff(w);
    HeaderToken(w) || (|w| > 0 && w[|w| - 1] == '\n' && HeaderToken(w[..|w| - 1]))
  }

  /** `w` is the opening character `o`, a nonempty line `h`, the closing
      character `cl`, and at most a final newline. */
  predicate Bracketed(w: string, o: char, h: string, cl: char) {
    o in {'<', '"'} && cl in {'>', '"'} && |h| > 0 && NoNewline(h) && Spelled(w, [o] + h, [cl])
  }

  lemma TokenBracketed(t: string)
    requires HeaderToken(t)
    ensures t == [t[0]] + t[1..|t| - 1] + [t[|t| - 1]]
  {
  }

  lemma BracketedIff(w: string)
    ensures (HeaderToken(w) || (|w| > 0 && w[|w| - 1] == '\n' && HeaderToken(w[..|w| - 1])))
        <==> exists o, h, cl :: Bracketed(w, o, h, cl)
  {
    if HeaderToken(w) {
      TokenBracketed(w);
      assert Bracketed(w, w[0], w[1..|w| - 1], w[|w| - 1]);
    } else if |w| > 0 && w[|w| - 1] == '\n' && HeaderToken(w[..|w| - 1]) {
      var t := w[..|w| - 1];
      TokenBracketed(t);
      assert w == t + "\n";
      assert Bracketed(w, t[0], t[1..|t| - 1], t[|t| - 1]);
    }
    if exists o, h, cl :: Bracketed(w, o, h, cl) {
      var o, h, cl :| Bracketed(w, o, h, cl);
      var t := [o] + h + [cl];
      assert HeaderToken(t) by {
        assert t[1..|t| - 1] == h;
      }
      if w == t {
      } else {
        assert w == t + "\n";
        assert w[..|w| - 1] == t;
      }
    }
  }

  // ---------------------------------------------------------------------
  // What the patterns capture from well-formed statements.

  /** A name the patterns capture whole: not empty, no newline, and not
      starting with whitespace (which `\s+` would swallow). */
  predicate CleanName(n: string) {
    |n| > 0 && !IsSpace(n[0]) && NoNewline(n)
  }

  /** A run of whitespace followed by a clean name is captured exactly. */
  lemma SpacesThenName(sp: string, n: string)
    requires |sp| >= 1 && AllAre(sp, IsSpace)
    requires CleanName(n)
    ensures SpacesThenGroup(sp + n) == Some(n)
  {
    var t := sp + n;
    LeadingSpacesOf(sp, n);
    assert t[|sp|..] == n;
  }

  lemma {:induction false} LeadingSpacesOf(sp: string, rest: string)
    requires AllAre(sp, IsSpace)
    requires |rest| > 0 && !IsSpace(rest[0])
    ensures LeadingSpaces(sp + rest) == |sp|
    decreases |sp|
  {
    if |sp| > 0 {
      assert (sp + rest)[1..] == sp[1..] + rest;
      LeadingSpacesOf(sp[1..], rest);
    } else {
      assert sp + rest == rest;
    }
  }

  /** `^kw\s+(.+)$` on `kw`, whitespace and a clean name captures the name. */
  lemma KeywordCaptures(kw: string, sp: string, n: string)
    requires |sp| >= 1 && AllAre(sp, IsSpace)
    requires CleanName(n)
    ensures KeywordGroup(kw, kw + sp + n) == Some(n)
  {
    var s := kw + sp + n;
    assert s[..|kw|] == kw;
    assert s[|kw|..] == sp + n;
    SpacesThenName(sp, n);
  }

  /** `^kw1\s+kw2\s+(.+)$` on the two keywords, whitespace after each and a
      clean name captures the name. */
  lemma KeywordsCapture(kw1: string, sp1: string, kw2: string, sp2: string, n: string)
    requires |kw2| > 0 && !IsSpace(kw2[0])
    requires |sp1| >= 1 && AllAre(sp1, IsSpace)
    requires |sp2| >= 1 && AllAre(sp2, IsSpace)
    requires CleanName(n)
    ensures KeywordsGroup(kw1, kw2, kw1 + sp1 + kw2 + sp2 + n) == Some(n)
  {
    var rest := kw2 + sp2 + n;
    var t := sp1 + rest;
    var s := kw1 + t;
    assert s == kw1 + sp1 + kw2 + sp2 + n;
    assert StartsWith(s, kw1) && s[|kw1|..] == t;
    LeadingSpacesOf(sp1, rest);
    assert t[|sp1|..] == rest;
    assert StartsWith(rest, kw2);
    KeywordCaptures(kw2, sp2, n);
  }
}
