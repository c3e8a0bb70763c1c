/** What `classify` promises: how each statement form is read and what it
    writes, that the first ordinary statement ends the scan, that the
    line structure does not matter, and that a file declares at most one
    module. */
module ClassifyProperties {
  import opened Wrappers
  import opened Text
  import opened Patterns
  import opened Utility
  import opened Classifier

  // ---------------------------------------------------------------------
  // Reading statements

  /** The text of a statement form, written with single spaces. */
  function Render(st: Statement): string
    requires !st.Ordinary?
  {
    match st
    case ImplDecl(n) => "module " + n
    case InterfaceDecl(n, _) => "export module " + n
    case ExportImport(v) => "export import " + v
    case Import(w) => "import " + w
  }

  /** A statement whose text the patterns read back: a clean payload, and
      a partition flag that agrees with the name. */
  predicate Renderable(st: Statement) {
    && !st.Ordinary?
    && CleanName(Payload(st))
    && (st.InterfaceDecl? ==> (st.partition <==> ':' in st.name))
  }

  /** A string that starts with another character cannot start with `kw`. */
  lemma NoKeyword(s: string, kw: string)
    requires |s| > 0 && |kw| > 0 && s[0] != kw[0]
    ensures !StartsWith(s, kw)
  {
  }

  /** A nonempty run of whitespace, the `\s+` between the words of a
      statement. */
  predicate Gap(sp: string) {
    |sp| >= 1 && AllAre(sp, IsSpace)
  }

  lemma OneSpace()
    ensures Gap(" ")
  {
    assert IsSpace(" "[0]);
  }

  /** Reading a written statement gives the statement back: each form is
      recognised by its own pattern and by none tried before it. */
  lemma ParseRender(st: Statement)
    requires Renderable(st)
    ensures Parse(Render(st)) == st
  {
    OneSpace();
    match st
    case ImplDecl(n) =>
      assert Render(st) == "module" + " " + n;
      ParseImpl(" ", n);
    case InterfaceDecl(n, p) =>
      assert Render(st) == "export" + " " + "module" + " " + n;
      ParseInterface(" ", " ", n);
    case ExportImport(v) =>
      assert Render(st) == "export" + " " + "import" + " " + v;
      ParseExportImport(" ", " ", v);
    case Import(w) =>
      assert Render(st) == "import" + " " + w;
      ParseImport(" ", w);
  }

  lemma ParseImpl(sp: string, n: string)
    requires Gap(sp) && CleanName(n)
    ensures Parse("module" + sp + n) == ImplDecl(n)
  {
    KeywordCaptures("module", sp, n);
  }

  lemma ParseInterface(sp1: string, sp2: string, n: string)
    requires Gap(sp1) && Gap(sp2) && CleanName(n)
    ensures Parse("export" + sp1 + "module" + sp2 + n) == InterfaceDecl(n, ':' in n)
  {
    var s := "export" + sp1 + "module" + sp2 + n;
    NoKeyword(s, "module");
    KeywordsCapture("export", sp1, "module", sp2, n);
  }

  lemma ParseExportImport(sp1: string, sp2: string, v: string)
    requires Gap(sp1) && Gap(sp2) && CleanName(v)
    ensures Parse("export" + sp1 + "import" + sp2 + v) == ExportImport(v)
  {
    var rest := "import" + sp2 + v;
    var s := "export" + sp1 + "import" + sp2 + v;
    assert s == "export" + (sp1 + rest);
    NoKeyword(s, "module");
    var t := s[|"export"|..];
    assert t == sp1 + rest;
    LeadingSpacesOf(sp1, rest);
    assert t[|sp1|..] == rest;
    NoKeyword(rest, "module");
    assert MatchExport(s).None?;
    KeywordsCapture("export", sp1, "import", sp2, v);
  }

  lemma ParseImport(sp: string, w: string)
    requires Gap(sp) && CleanName(w)
    ensures Parse("import" + sp + w) == Import(w)
  {
    var s := "import" + sp + w;
    NoKeyword(s, "module");
    NoKeyword(s, "export");
    KeywordCaptures("import", sp, w);
  }

  /** `module X`, with any whitespace between the two words, declares an
      implementation unit of `X` and records `X` in `pre`; a file that
      already declared a role fails. */
  lemma ModuleDeclaration(d: Classification, sp: string, n: string)
    requires Gap(sp) && CleanName(n)
    ensures Step(d, "module" + sp + n) ==
      if d.kind == Plain then Success(Some(d.(kind := ModuleImpl, moduleName := n, pre := d.pre + [n])))
      else Failure(RepeatedDeclaration("module" + sp + n))
  {
    ParseImpl(sp, n);
  }

  /** `export module X` declares `X`: a partition when the statement holds
      a `:`, an interface otherwise; a file that already declared a role
      fails. */
  lemma ExportModuleDeclaration(d: Classification, sp1: string, sp2: string, n: string)
    requires Gap(sp1) && Gap(sp2) && CleanName(n)
    ensures Step(d, "export" + sp1 + "module" + sp2 + n) ==
      if d.kind == Plain then
        Success(Some(d.(kind := if ':' in "export" + sp1 + "module" + sp2 + n then ModulePartition else Module, moduleName := n)))
      else Failure(RepeatedDeclaration("export" + sp1 + "module" + sp2 + n))
  {
    ParseInterface(sp1, sp2, n);
  }

  /** `export import :P` depends on partition `P` of the declared module
      and fails before a declaration; any other `export import V` depends
      on `V` as written, header-unit quoting included. */
  lemma ExportImportStatement(d: Classification, sp1: string, sp2: string, v: string)
    requires Gap(sp1) && Gap(sp2) && CleanName(v)
    ensures Step(d, "export" + sp1 + "import" + sp2 + v) ==
      if v[0] == ':' then
        if d.moduleName == "" then Failure(PartitionOutsideModule("export" + sp1 + "import" + sp2 + v))
        else Success(Some(d.(post := d.post + [d.moduleName + v])))
      else Success(Some(d.(post := d.post + [v])))
  {
    ParseExportImport(sp1, sp2, v);
  }

  /** `import W` adds a header unit when `W` is quoted with `<...>` or
      `"..."` and a dependency on `W` as written otherwise. */
  lemma ImportStatement(d: Classification, sp: string, w: string)
    requires Gap(sp) && CleanName(w)
    ensures Step(d, "import" + sp + w) ==
      if MatchHeaderUnit(w) then Success(Some(d.(headerUnits := d.headerUnits + [StripChars(w, HeaderQuotes)])))
      else Success(Some(d.(post := d.post + [w])))
  {
    ParseImport(sp, w);
  }

  /** A quoted header name is recorded without its quotes. */
  lemma HeaderUnitImport(d: Classification, sp: string, open: char, h: string, close: char)
    requires Gap(sp) && open in {'<', '"'} && close in {'>', '"'}
    requires |h| > 0 && NoNewline(h) && h[0] !in HeaderQuotes && h[|h| - 1] !in HeaderQuotes
    ensures Step(d, "import" + sp + ([open] + h + [close])) == Success(Some(d.(headerUnits := d.headerUnits + [h])))
  {
    var w := [open] + h + [close];
    assert w[1..|w| - 1] == h;
    assert HeaderToken(w);
    assert CleanName(w) by {
      assert w[0] == open;
      assert NoNewline(w) by {
        assert w == [open] + w[1..|w| - 1] + [close];
      }
    }
    StripCharsUnique([open], h, [close], HeaderQuotes);
    ImportStatement(d, sp, w);
  }

  /** `import :P` is not expanded: the dependency is `:P` as written. */
  lemma ImportKeepsColon(d: Classification, sp: string, p: string)
    requires Gap(sp) && NoNewline(p)
    ensures Step(d, "import" + sp + ":" + p) == Success(Some(d.(post := d.post + [":" + p])))
  {
    assert "import" + sp + ":" + p == "import" + sp + (":" + p);
    assert !MatchHeaderUnit(":" + p) by {
      assert (":" + p)[0] == ':';
    }
    ImportStatement(d, sp, ":" + p);
  }

  /** A bare `module`, a preprocessor line and a comment stop the scan like
      any other ordinary statement: the list of such statements in
      classify.py is never consulted. */
  lemma InertFormsStop(d: Classification, stat: string)
    requires stat == "module" || (|stat| > 0 && stat[0] == '#') || (|stat| > 1 && stat[..2] == "//")
    ensures Step(d, stat) == Success(None)
  {
    NoKeyword(stat, "export");
    NoKeyword(stat, "import");
    if stat == "module" {
      assert stat[|"module"|..] == "";
      assert LeadingSpaces("") == 0;
    } else {
      assert stat[0] == '#' || stat[0] == '/' by {
        if stat[0] != '#' {
          assert stat[..2][0] == '/';
        }
      }
      NoKeyword(stat, "module");
    }
  }

  // ---------------------------------------------------------------------
  // Scanning a file

  /** Scanning goes on from the result of the first part. */
  function Resume(r: Result<Scan, ClassifyError>, rest: seq<string>): Result<Scan, ClassifyError> {
    match r
    case Failure(e) => Failure(e)
    case Success(sc) => if sc.stopped then r else ScanStatements(rest, sc.data)
  }

  /** Scanning two lists of statements one after the other is scanning
      the first and, unless it failed or stopped, going on with the second. */
  lemma {:induction false} ScanAppend(a: seq<string>, b: seq<string>, d: Classification)
    ensures ScanStatements(a + b, d) == Resume(ScanStatements(a, d), b)
    decreases |a|
  {
    if |a| == 0 {
      assert a + b == b;
    } else {
      assert (a + b)[0] == a[0];
      assert (a + b)[1..] == a[1..] + b;
      match Step(d, a[0])
      case Failure(e) =>
      case Success(None) =>
      case Success(Some(next)) =>
        ScanAppend(a[1..], b, next);
    }
  }

  /** Nothing after an ordinary statement, on its line or a later one,
      changes the result. */
  lemma ScanStopsAtOrdinary(before: seq<string>, stat: string, after: seq<string>, d: Classification)
    requires stat != "" && Parse(stat).Ordinary?
    ensures ScanStatements(before + [stat] + after, d) == ScanStatements(before + [stat], d)
    ensures ScanStatements(before + [stat], d).Failure? || ScanStatements(before + [stat], d).value.stopped
  {
    ScanAppend(before, [stat], d);
    ScanAppend(before + [stat], after, d);
  }

  /** A statement as `Statements` yields it: no `;`, and no whitespace at
      either end. */
  predicate Bare(stat: string) {
    ';' !in stat && (stat == [] || (!IsSpace(stat[0]) && !IsSpace(stat[|stat| - 1])))
  }

  /** Statements joined with `;` are read back as the same statements. */
  lemma StatementsOfJoin(p: seq<string>)
    requires |p| >= 1 && forall i | 0 <= i < |p| :: Bare(p[i])
    ensures Statements(Join(p, ';')) == p
  {
    var line := Join(p, ';');
    JoinBare(p);
    StripBare(line);
    SplitJoin(p, ';');
    var pieces := Split(Strip(line), ';');
    assert pieces == p;
    StatementsSplit(line);
    StripsToSelf(Statements(line), pieces);
  }

  /** Stripping each of a list of bare statements gives the list back. */
  lemma StripsToSelf(stats: seq<string>, pieces: seq<string>)
    requires |stats| == |pieces| && forall i | 0 <= i < |pieces| :: Bare(pieces[i])
    requires forall i | 0 <= i < |stats| :: stats[i] == Strip(pieces[i])
    ensures stats == pieces
  {
    forall i | 0 <= i < |stats| ensures stats[i] == pieces[i] {
      StripBare(pieces[i]);
    }
  }

  /** The statements of a line are its stripped `;`-pieces, stripped. */
  lemma StatementsSplit(line: string)
    ensures |Statements(line)| == |Split(Strip(line), ';')|
    ensures forall i | 0 <= i < |Statements(line)| :: Statements(line)[i] == Strip(Split(Strip(line), ';')[i])
  {
  }

  /** A string without whitespace at either end is its own strip. */
  lemma StripBare(s: string)
    requires s == [] || (!IsSpace(s[0]) && !IsSpace(s[|s| - 1]))
    ensures Strip(s) == s
  {
    TrimUnique([], s, [], IsSpace);
    assert [] + s + [] == s;
  }

  /** A join of bare statements has no whitespace at either end. */
  lemma {:induction false} JoinBare(p: seq<string>)
    requires |p| >= 1 && forall i | 0 <= i < |p| :: Bare(p[i])
    ensures var j := Join(p, ';'); j == [] || (!IsSpace(j[0]) && !IsSpace(j[|j| - 1]))
    decreases |p|
  {
    if |p| > 1 {
      var rest := Join(p[1..], ';');
      JoinBare(p[1..]);
      var j := p[0] + [';'] + rest;
      assert Join(p, ';') == j;
      assert j[0] == if p[0] == [] then ';' else p[0][0];
      assert j[|j| - 1] == if rest == [] then ';' else rest[|rest| - 1];
    }
  }

  /** Every statement of a file, line after line. */
  function AllStatements(lines: seq<string>): seq<string> {
    if |lines| == 0 then [] else Statements(lines[0]) + AllStatements(lines[1..])
  }

  lemma {:induction false} AllStatementsAppend(a: seq<string>, b: seq<string>)
    ensures AllStatements(a + b) == AllStatements(a) + AllStatements(b)
    decreases |a|
  {
    if |a| == 0 {
      assert a + b == b;
    } else {
      assert (a + b)[0] == a[0];
      assert (a + b)[1..] == a[1..] + b;
      AllStatementsAppend(a[1..], b);
    }
  }

  /** Where the line breaks fall does not matter: scanning line by line
      is scanning all the statements of the file in order. */
  lemma {:induction false} ScanLinesFlat(lines: seq<string>, d: Classification)
    ensures ScanLines(lines, d) == ScanStatements(AllStatements(lines), d)
    decreases |lines|
  {
    if |lines| > 0 {
      ScanAppend(Statements(lines[0]), AllStatements(lines[1..]), d);
      match ScanStatements(Statements(lines[0]), d)
      case Failure(e) =>
      case Success(sc) =>
        if !sc.stopped {
          ScanLinesFlat(lines[1..], sc.data);
        }
    }
  }

  /** Once the scan of a file has stopped, lines appended to the file
      change nothing. */
  lemma ClassifyIgnoresLaterLines(filename: string, lines: seq<string>, extra: seq<string>)
    requires ScanLines(lines, Initial(filename)).Success?
    requires ScanLines(lines, Initial(filename)).value.stopped
    ensures Classify(filename, lines + extra) == Classify(filename, lines)
  {
    var d := Initial(filename);
    ScanLinesFlat(lines, d);
    ScanLinesFlat(lines + extra, d);
    AllStatementsAppend(lines, extra);
    ScanAppend(AllStatements(lines), AllStatements(extra), d);
  }

  /** A statement that ends the scan. */
  predicate Stops(stat: string) {
    stat != "" && Parse(stat).Ordinary?
  }

  /** A file with no recognised statement before its first ordinary one
      classifies as plain, with no name and empty lists. */
  lemma {:induction false} NothingRecognised(stats: seq<string>, d: Classification)
    requires forall i | 0 <= i < |stats| :: stats[i] == "" || Stops(stats[i])
    ensures ScanStatements(stats, d).Success? && ScanStatements(stats, d).value.data == d
    decreases |stats|
  {
    if |stats| > 0 && stats[0] == "" {
      NothingRecognised(stats[1..], d);
    }
  }

  lemma ClassifyNothingRecognised(filename: string, lines: seq<string>)
    requires forall i | 0 <= i < |AllStatements(lines)| :: AllStatements(lines)[i] == "" || Stops(AllStatements(lines)[i])
    ensures Classify(filename, lines) == Success(Initial(filename))
  {
    ScanLinesFlat(lines, Initial(filename));
    NothingRecognised(AllStatements(lines), Initial(filename));
  }

  /** A scan that meets no ordinary statement never stops. */
  lemma {:induction false} NoStopWithoutOrdinary(stats: seq<string>, d: Classification)
    requires forall i | 0 <= i < |stats| :: !Stops(stats[i])
    requires ScanStatements(stats, d).Success?
    ensures !ScanStatements(stats, d).value.stopped
    decreases |stats|
  {
    if |stats| > 0 {
      NoStopWithoutOrdinary(stats[1..], Step(d, stats[0]).value.value);
    }
  }

  predicate IsDeclaration(stat: string) {
    stat != "" && (Parse(stat).ImplDecl? || Parse(stat).InterfaceDecl?)
  }

  /** After a declaration has been scanned the role is no longer plain. */
  lemma {:induction false} DeclarationSticks(stats: seq<string>, d: Classification, i: nat)
    requires i < |stats| && IsDeclaration(stats[i])
    requires ScanStatements(stats, d).Success? && !ScanStatements(stats, d).value.stopped
    ensures ScanStatements(stats, d).value.data.kind != Plain
    decreases |stats|
  {
    var next := Step(d, stats[0]).value.value;
    assert ScanStatements(stats, d) == ScanStatements(stats[1..], next);
    if i > 0 {
      DeclarationSticks(stats[1..], next, i - 1);
    } else {
      assert next.kind != Plain;
    }
  }

  /** A second `module` or `export module` statement fails, whatever
      comes between the two, as long as nothing stopped the scan first. */
  lemma SecondDeclarationFails(stats: seq<string>, d: Classification, i: nat, j: nat)
    requires i < j < |stats|
    requires IsDeclaration(stats[i]) && IsDeclaration(stats[j])
    requires forall k | 0 <= k < j :: !Stops(stats[k])
    ensures ScanStatements(stats, d).Failure?
  {
    var before := stats[..j];
    var mid := before + [stats[j]];
    var rest := stats[j + 1..];
    SplitAt(stats, j);
    ScanAppend(mid, rest, d);
    ScanAppend(before, [stats[j]], d);
    var r := ScanStatements(before, d);
    if r.Success? {
      assert forall k | 0 <= k < |before| :: !Stops(before[k]);
      NoStopWithoutOrdinary(before, d);
      assert before[i] == stats[i];
      DeclarationSticks(before, d, i);
      DeclarationAfterDeclaration(r.value.data, stats[j]);
      assert ScanStatements(mid, d).Failure?;
    } else {
      assert ScanStatements(mid, d).Failure?;
    }
    assert Resume(ScanStatements(mid, d), rest).Failure?;
  }

  lemma SplitAt(s: seq<string>, j: nat)
    requires j < |s|
    ensures s == s[..j] + [s[j]] + s[j + 1..]
  {
  }

  lemma DeclarationAfterDeclaration(e: Classification, stat: string)
    requires e.kind != Plain && IsDeclaration(stat)
    ensures ScanStatements([stat], e) == Failure(RepeatedDeclaration(stat))
  {
  }

  /** The same for a whole file. */
  lemma TwoDeclarationsFail(filename: string, lines: seq<string>, i: nat, j: nat)
    requires i < j < |AllStatements(lines)|
    requires IsDeclaration(AllStatements(lines)[i]) && IsDeclaration(AllStatements(lines)[j])
    requires forall k | 0 <= k < j :: !Stops(AllStatements(lines)[k])
    ensures Classify(filename, lines).Failure?
  {
    ScanLinesFlat(lines, Initial(filename));
    SecondDeclarationFails(AllStatements(lines), Initial(filename), i, j);
  }
}
