/** `classify`: reads the preamble of one source file and records the
    file's module role, the module it declares, the header units it
    imports and the names it depends on. The file is given as the list
    of its lines; opening and reading it is not modelled. */
module Classifier {
  import opened Wrappers
  import opened Text
  import opened Patterns
  import opened Utility

  /** The dictionary `classify` returns. `post` holds the dependencies
      (imported modules and partitions), `pre` the module an
      implementation unit belongs to. */
  datatype Classification = Classification(
    filename: string,
    moduleName: string,
    kind: ModuleType,
    headerUnits: seq<string>,
    post: seq<string>,
    pre: seq<string>)

  /** The two `assert` statements that can fail while scanning. */
  datatype ClassifyError =
    | RepeatedDeclaration(statement: string)    // a second `module`/`export module`
    | PartitionOutsideModule(statement: string) // `export import :P` before any declaration

  /** The dictionary before the first statement. */
  function Initial(filename: string): Classification {
    Classification(filename, "", Plain, [], [], [])
  }

  /** What a non-empty statement is, the four patterns tried in the order
      `classify` tries them. */
  datatype Statement =
    | ImplDecl(name: string)                        // `module X`
    | InterfaceDecl(name: string, partition: bool)  // `export module X`
    | ExportImport(value: string)                   // `export import X`
    | Import(what: string)                          // `import X`
    | Ordinary                                      // anything else

  function Parse(stat: string): (st: Statement)
    ensures st.ImplDecl? <==> MatchImpl(stat).Some?
    ensures st.InterfaceDecl? <==> MatchImpl(stat).None? && MatchExport(stat).Some?
    ensures st.ExportImport? <==> MatchImpl(stat).None? && MatchExport(stat).None? && MatchExportImport(stat).Some?
    ensures st.Import? <==>
      MatchImpl(stat).None? && MatchExport(stat).None? && MatchExportImport(stat).None? && MatchImport(stat).Some?
    ensures st.InterfaceDecl? ==> (st.partition <==> ':' in st.name)
    ensures !st.Ordinary? ==> |Payload(st)| > 0 && NoNewline(Payload(st))
  {
    if MatchImpl(stat).Some? then ImplDecl(MatchImpl(stat).value)
    else if MatchExport(stat).Some? then
      KeywordsGroupHolds("export", "module", stat, ':');
      InterfaceDecl(MatchExport(stat).value, ':' in stat)
    else if MatchExportImport(stat).Some? then ExportImport(MatchExportImport(stat).value)
    else if MatchImport(stat).Some? then Import(MatchImport(stat).value)
    else Ordinary
  }

  /** The text a declaration or import captured. */
  function Payload(st: Statement): string
    requires !st.Ordinary?
  {
    match st
    case ImplDecl(n) => n
    case InterfaceDecl(n, _) => n
    case ExportImport(v) => v
    case Import(w) => w
  }

  /** The characters `what.strip('<>"')` removes from a header-unit name. */
  const HeaderQuotes: set<char> := {'<', '>', '"'}

  /** The parts of the dictionary a statement writes: the declaration
      (`type`, `module`, `pre`), `post`, and `header_units`. */
  predicate SameDeclaration(d: Classification, e: Classification) {
    e.kind == d.kind && e.moduleName == d.moduleName && e.pre == d.pre
  }

  /** At most one of the three parts differs between `d` and `e`. */
  predicate OnePartAtMost(d: Classification, e: Classification) {
    || (e.post == d.post && e.headerUnits == d.headerUnits)
    || (SameDeclaration(d, e) && e.headerUnits == d.headerUnits)
    || (SameDeclaration(d, e) && e.post == d.post)
  }

  /** `e` is `d` after further statements: same file, lists only grown at
      the end, and a declared role and name never change again. */
  predicate Extends(d: Classification, e: Classification) {
    && e.filename == d.filename
    && d.headerUnits <= e.headerUnits
    && d.post <= e.post
    && d.pre <= e.pre
    && (d.kind != Plain ==> e.kind == d.kind && e.moduleName == d.moduleName)
  }

  /** The shape every dictionary `classify` builds has: a name exactly when
      a role is declared, `pre` holding the name of an implementation unit
      and nothing otherwise, and a partition named with a `:`. */
  predicate WellFormed(d: Classification) {
    && (d.kind == Plain <==> d.moduleName == "")
    && d.pre == (if d.kind == ModuleImpl then [d.moduleName] else [])
    && (d.kind == ModulePartition ==> ':' in d.moduleName)
    && (d.kind == Module ==> ':' !in d.moduleName)
  }

  /** One pass of the statement loop's body. `Success(None)` is a
      statement that stops the scan; an empty statement is skipped. */
  function Step(d: Classification, stat: string): (r: Result<Option<Classification>, ClassifyError>)
    ensures r.Success? && r.value.None? <==> stat != "" && Parse(stat).Ordinary?
    ensures r.Success? && r.value.Some? ==> Extends(d, r.value.value) && OnePartAtMost(d, r.value.value)
    ensures r.Success? && r.value.Some? && WellFormed(d) ==> WellFormed(r.value.value)
    ensures r.Success? && r.value.Some? ==>
      |r.value.value.headerUnits| + |r.value.value.post| + |r.value.value.pre|
        <= |d.headerUnits| + |d.post| + |d.pre| + 1
    ensures r.Failure? <==>
      stat != "" &&
      (|| ((Parse(stat).ImplDecl? || Parse(stat).InterfaceDecl?) && d.kind != Plain)
       || (Parse(stat).ExportImport? && Parse(stat).value[0] == ':' && d.moduleName == ""))
  {
    if stat == "" then Success(Some(d))
    else
      match Parse(stat)
      case ImplDecl(name) =>
        if d.kind != Plain then Failure(RepeatedDeclaration(stat))
        else Success(Some(d.(kind := ModuleImpl, moduleName := name, pre := d.pre + [name])))
      case InterfaceDecl(name, partition) =>
        if d.kind != Plain then Failure(RepeatedDeclaration(stat))
        else Success(Some(d.(kind := if partition then ModulePartition else Module, moduleName := name)))
      case ExportImport(value) =>
        if value[0] == ':' then
          if d.moduleName == "" then Failure(PartitionOutsideModule(stat))
          else Success(Some(d.(post := d.post + [d.moduleName + value])))
        else Success(Some(d.(post := d.post + [value])))
      case Import(what) =>
        if MatchHeaderUnit(what) then Success(Some(d.(headerUnits := d.headerUnits + [StripChars(what, HeaderQuotes)])))
        else Success(Some(d.(post := d.post + [what])))
      case Ordinary => Success(None)
  }

  /** The state of the scan: the dictionary so far, and whether a
      statement has stopped it (`done` in the source). */
  datatype Scan = Scan(data: Classification, stopped: bool)

  lemma ExtendsTransitive(a: Classification, b: Classification, c: Classification)
    requires Extends(a, b) && Extends(b, c)
    ensures Extends(a, c)
  {
    assert a.headerUnits == b.headerUnits[..|a.headerUnits|] == c.headerUnits[..|a.headerUnits|];
    assert a.post == b.post[..|a.post|] == c.post[..|a.post|];
    assert a.pre == b.pre[..|a.pre|] == c.pre[..|a.pre|];
  }

  /** The statements of a list, in order, until one stops the scan. */
  function ScanStatements(stats: seq<string>, d: Classification): (r: Result<Scan, ClassifyError>)
    ensures r.Success? ==> Extends(d, r.value.data)
    ensures r.Success? && WellFormed(d) ==> WellFormed(r.value.data)
    decreases |stats|
  {
    if |stats| == 0 then Success(Scan(d, false))
    else
      match Step(d, stats[0])
      case Failure(e) => Failure(e)
      case Success(None) => Success(Scan(d, true))
      case Success(Some(next)) =>
        var r := ScanStatements(stats[1..], next);
        if r.Success? then
          ExtendsTransitive(d, next, r.value.data);
          r
        else r
  }

  /** The statements of one line: the stripped line split at `;`, each
      piece stripped again. */
  function Statements(line: string): (stats: seq<string>)
    ensures |stats| >= 1
    ensures forall i :: 0 <= i < |stats| ==> ';' !in stats[i]
    ensures forall i :: 0 <= i < |stats| ==> stats[i] == [] || (!IsSpace(stats[i][0]) && !IsSpace(stats[i][|stats[i]| - 1]))
  {
    var pieces := Split(Strip(line), ';');
    var stats := seq(|pieces|, i requires 0 <= i < |pieces| => Strip(pieces[i]));
    assert forall i :: 0 <= i < |stats| ==> ';' !in stats[i] by {
      forall i | 0 <= i < |stats| ensures ';' !in stats[i] {
        TrimKeepsOut(pieces[i], IsSpace, ';');
      }
    }
    stats
  }

  /** The lines of a file, in order, until a statement stops the scan. */
  function ScanLines(lines: seq<string>, d: Classification): (r: Result<Scan, ClassifyError>)
    ensures r.Success? ==> Extends(d, r.value.data)
    ensures r.Success? && WellFormed(d) ==> WellFormed(r.value.data)
    decreases |lines|
  {
    if |lines| == 0 then Success(Scan(d, false))
    else
      match ScanStatements(Statements(lines[0]), d)
      case Failure(e) => Failure(e)
      case Success(sc) =>
        if sc.stopped then Success(sc)
        else
          var r := ScanLines(lines[1..], sc.data);
          if r.Success? then
            ExtendsTransitive(d, sc.data, r.value.data);
            r
          else r
  }

  /** `classify(filename)` on a file whose lines are `lines`. */
  function Classify(filename: string, lines: seq<string>): (r: Result<Classification, ClassifyError>)
    ensures r.Success? ==> r.value.filename == filename && WellFormed(r.value)
  {
    match ScanLines(lines, Initial(filename))
    case Failure(e) => Failure(e)
    case Success(sc) => Success(sc.data)
  }
}
