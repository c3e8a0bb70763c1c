/** `Baker.gen_classes` and `Baker.make_targets`: every source of a target
    is classified and turned into a node, the nodes are indexed by kind,
    the header units are collected, and the target's first source becomes
    the root. The contents of the source files are a parameter, `files`,
    mapping a file name in the source directory to its lines; changing
    into that directory and opening files are not modelled. */
module Baker {
  import opened Wrappers
  import opened Text
  import opened Utility
  import opened Classifier
  import opened Nodes
  import opened JsonValues

  datatype BakeError =
    | NotAString(source: Json)                          // AttributeError: no `endswith`
    | BadExtension(name: string)                        // ValueError: not .cpp/.cppm
    | MissingFile(name: string)                         // `open` fails
    | ClassifyFailed(name: string, why: ClassifyError)  // an assert inside `classify`
    | RootNotPlain(name: string)                        // ValueError: first source not a plain .cpp
    | TargetsNotADict                                   // ValueError
    | SourcesNotAList(target: string)                   // ValueError

  /** The nodes indexed by kind, and the header units: `self.classes` and
      `self.header_units`. Python keeps plain nodes in a set of distinct
      objects, so each plain source adds one; the other kinds are dicts
      keyed by module name. */
  datatype Index = Index(
    plain: seq<Node>,
    modules: map<string, Node>,
    partitions: map<string, Node>,
    impls: map<string, Node>,
    headerUnits: set<string>)

  /** The state `gen_classes` leaves behind, `self.root_node` included. */
  datatype State = State(index: Index, root: Option<Node>)

  const EmptyIndex := Index([], map[], map[], map[], {})

  /** The children of a source's node: its dependencies, as strings. */
  function Children(c: Classification): seq<Child> {
    seq(|c.post|, i requires 0 <= i < |c.post| => StrChild(c.post[i]))
  }

  /** The classifier's dictionary without `header_units` and `post`. */
  function NodeData(c: Classification): map<string, Value> {
    map["filename" := Str(c.filename), "module" := Str(c.moduleName), "type" := Kind(c.kind),
        "pre" := List(seq(|c.pre|, i requires 0 <= i < |c.pre| => Str(c.pre[i])))]
  }

  function ToNode(c: Classification): Node {
    Node(None, Children(c), NodeData(c))
  }

  /** A classified source always makes a valid node: the three required
      keys are there with their exact types and every child is a string,
      so `Node.check` never raises inside `gen_classes`. */
  lemma NodeBuilds(c: Classification)
    ensures NewNode(None, Children(c), NodeData(c)) == Success(ToNode(c))
  {
    var data := NodeData(c);
    forall k | 0 <= k < |Required|
      ensures Holds(data, k)
    {
      assert Required[k].0 == "module" || Required[k].0 == "filename" || Required[k].0 == "type";
    }
    assert forall i | 0 <= i < |Children(c)| :: ChildOk(Children(c)[i]);
  }

  /** The map of one non-plain kind. */
  function KindMap(ix: Index, k: ModuleType): map<string, Node>
    requires k != Plain
  {
    match k
    case Module => ix.modules
    case ModulePartition => ix.partitions
    case ModuleImpl => ix.impls
  }

  /** The index after one more classified source. */
  function Add(ix: Index, c: Classification, node: Node): (r: Index)
    ensures r.headerUnits == ix.headerUnits + set h | h in c.headerUnits
    ensures c.kind == Plain ==> r.plain == ix.plain + [node]
    ensures c.kind != Plain ==> r.plain == ix.plain
    ensures forall k | k != Plain :: KindMap(r, k) == if k == c.kind then KindMap(ix, k)[c.moduleName := node] else KindMap(ix, k)
  {
    var hu := ix.headerUnits + set h | h in c.headerUnits;
    match c.kind
    case Plain => ix.(plain := ix.plain + [node], headerUnits := hu)
    case Module => ix.(modules := ix.modules[c.moduleName := node], headerUnits := hu)
    case ModulePartition => ix.(partitions := ix.partitions[c.moduleName := node], headerUnits := hu)
    case ModuleImpl => ix.(impls := ix.impls[c.moduleName := node], headerUnits := hu)
  }

  /** The checks and the classification of one source, in the order the
      loop body makes them: a string, the extension, the file, the
      classifier's assertions. */
  function ClassifySource(source: Json, files: map<string, seq<string>>): (r: Result<Classification, BakeError>)
    ensures r.Success? ==> source.JStr? && r.value.filename == source.s && WellFormed(r.value)
    ensures r.Success? ==> EndsWith(source.s, ".cpp") || EndsWith(source.s, ".cppm")
    ensures source.JStr? && !(EndsWith(source.s, ".cpp") || EndsWith(source.s, ".cppm")) ==> r == Failure(BadExtension(source.s))
  {
    if !source.JStr? then Failure(NotAString(source))
    else
      var name := source.s;
      if !(EndsWith(name, ".cpp") || EndsWith(name, ".cppm")) then Failure(BadExtension(name))
      else if name !in files then Failure(MissingFile(name))
      else
        match Classify(name, files[name])
        case Failure(e) => Failure(ClassifyFailed(name, e))
        case Success(c) => Success(c)
  }

  /** Every source classified on its own. The loop stops at the first
      failure; the fold below looks at these results in the same order
      and stops at the same place, so classifying them all first changes
      nothing. */
  function ClassifyAll(sources: seq<Json>, files: map<string, seq<string>>): (rs: seq<Result<Classification, BakeError>>)
    ensures |rs| == |sources|
    ensures forall i | 0 <= i < |sources| :: rs[i] == ClassifySource(sources[i], files)
  {
    seq(|sources|, i requires 0 <= i < |sources| => ClassifySource(sources[i], files))
  }

  /** The root rule: the first source is a plain `.cpp` file. The
      classification's file name is the source itself. */
  predicate RootOk(c: Classification) {
    c.kind == Plain && EndsWith(c.filename, ".cpp")
  }

  /** The rest of the loop body for a classified source: the node, the
      index, and for the first source the root rule. `Node(**data)` checks
      its arguments, but on a classification the check always passes
      (`NodeBuilds`), so the node is built directly. */
  function Admit(st: State, c: Classification, first: bool): (r: Result<State, BakeError>)
    ensures r.Failure? <==> first && !RootOk(c)
    ensures r.Success? ==> r.value.index == Add(st.index, c, ToNode(c))
    ensures r.Success? ==> r.value.root == if first then Some(ToNode(c)) else st.root
  {
    var node := ToNode(c);
    var ix := Add(st.index, c, node);
    if first then
      if !RootOk(c) then Failure(RootNotPlain(c.filename))
      else Success(State(ix, Some(node)))
    else Success(State(ix, st.root))
  }

  /** The loop of `gen_classes` over the first `n` classification results.
      A failure stops it: the first failing source decides the error. */
  function GenPrefix(results: seq<Result<Classification, BakeError>>, root: Option<Node>, n: nat): (r: Result<State, BakeError>)
    requires n <= |results|
    ensures n > 0 && r.Success? ==>
      && results[0].Success? && RootOk(results[0].value)
      && r.value.root == Some(ToNode(results[0].value))
    decreases n
  {
    if n == 0 then Success(State(EmptyIndex, root))
    else
      var st :- GenPrefix(results, root, n - 1);
      var c :- results[n - 1];
      Admit(st, c, n == 1)
  }

  /** `self.gen_classes(sources)` with `self.root_node` equal to `root`
      beforehand (`None` when it was never set). */
  function GenClasses(sources: seq<Json>, files: map<string, seq<string>>, root: Option<Node>): (r: Result<State, BakeError>)
    ensures |sources| == 0 ==> r == Success(State(EmptyIndex, root))
  {
    GenPrefix(ClassifyAll(sources, files), root, |sources|)
  }

  /** The root held before a run matters only when there are no sources:
      the first source replaces it. */
  lemma {:induction false} GenPrefixRootFree(results: seq<Result<Classification, BakeError>>, r1: Option<Node>, r2: Option<Node>, n: nat)
    requires 0 < n <= |results|
    ensures GenPrefix(results, r1, n) == GenPrefix(results, r2, n)
    decreases n
  {
    if n > 1 {
      GenPrefixRootFree(results, r1, r2, n - 1);
    }
  }

  lemma GenClassesRootFree(sources: seq<Json>, files: map<string, seq<string>>, root: Option<Node>)
    ensures GenClasses(sources, files, root).Success? == GenClasses(sources, files, None).Success?
    ensures GenClasses(sources, files, root).Success? ==>
      GenClasses(sources, files, root).value.index == GenClasses(sources, files, None).value.index
    ensures |sources| > 0 ==> GenClasses(sources, files, root) == GenClasses(sources, files, None)
  {
    if |sources| > 0 {
      GenPrefixRootFree(ClassifyAll(sources, files), root, None, |sources|);
    }
  }

  /** What `make_targets` leaves behind: the index of the last target
      (none when there are no targets) and the root node. */
  datatype Outcome = Outcome(last: Option<Index>, root: Option<Node>)

  /** The targets from the first member on, in document order. */
  function TargetsFrom(targets: seq<(string, Json)>, files: map<string, seq<string>>, out: Outcome): (r: Result<Outcome, BakeError>)
    ensures r.Success? ==> forall i | 0 <= i < |targets| ::
      targets[i].1.JArray? && GenClasses(targets[i].1.items, files, None).Success?
    ensures r.Success? && |targets| > 0 ==> r.value.last.Some?
    ensures r.Success? && |targets| == 0 ==> r.value == out
    decreases |targets|
  {
    if |targets| == 0 then Success(out)
    else
      var (name, sources) := targets[0];
      if !sources.JArray? then Failure(SourcesNotAList(name))
      else
        var st :- GenClasses(sources.items, files, out.root);
        GenClassesRootFree(sources.items, files, out.root);
        // `build_dependency_tree` does nothing.
        var r := TargetsFrom(targets[1..], files, Outcome(Some(st.index), st.root));
        assert forall i | 1 <= i < |targets| :: targets[i] == targets[1..][i - 1];
        r
  }

  /** `self.make_targets()` on the merged option `targets`. */
  function MakeTargets(targets: Json, files: map<string, seq<string>>, root: Option<Node>): (r: Result<Outcome, BakeError>)
    ensures !targets.JObject? ==> r == Failure(TargetsNotADict)
    ensures r.Success? ==> targets.JObject? && forall i | 0 <= i < |targets.members| :: targets.members[i].1.JArray?
  {
    if !targets.JObject? then Failure(TargetsNotADict)
    else TargetsFrom(targets.members, files, Outcome(None, root))
  }
}
