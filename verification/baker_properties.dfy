/** What assembling a target promises: a node for every classified source
    always passes its own check, the first failing source decides the
    error, and a successful run indexes the sources as a declarative
    description says, with the header units collected and the root taken
    from the first source. */
module BakerProperties {
  import opened Wrappers
  import opened Text
  import opened Utility
  import opened Classifier
  import opened Nodes
  import opened JsonValues
  import opened Baker

  /** The index a successful run builds from the classified sources `cs`,
      one after the other. */
  function Assemble(cs: seq<Classification>): Index
    decreases |cs|
  {
    if |cs| == 0 then EmptyIndex
    else Add(Assemble(cs[..|cs| - 1]), cs[|cs| - 1], ToNode(cs[|cs| - 1]))
  }

  /** Every result is a classification, the one in `cs`. */
  predicate AllClassified(results: seq<Result<Classification, BakeError>>, cs: seq<Classification>) {
    |cs| == |results| && forall i | 0 <= i < |results| :: results[i] == Success(cs[i])
  }

  lemma {:induction false} GenPrefixMatches(results: seq<Result<Classification, BakeError>>, root: Option<Node>, cs: seq<Classification>, n: nat)
    requires AllClassified(results, cs) && n <= |results|
    ensures GenPrefix(results, root, n).Success? <==> n == 0 || RootOk(cs[0])
    ensures GenPrefix(results, root, n).Success? ==>
      GenPrefix(results, root, n).value == State(Assemble(cs[..n]), if n == 0 then root else Some(ToNode(cs[0])))
    decreases n
  {
    if n > 0 {
      GenPrefixMatches(results, root, cs, n - 1);
      var prev := GenPrefix(results, root, n - 1);
      assert results[n - 1] == Success(cs[n - 1]);
      if prev.Success? {
        assert GenPrefix(results, root, n) == Admit(prev.value, cs[n - 1], n == 1);
        assert cs[..n][..n - 1] == cs[..n - 1];
      } else {
        assert GenPrefix(results, root, n) == Failure(prev.error);
      }
    }
  }

  /** A run that succeeds found a classification at every step. */
  lemma {:induction false} GenPrefixClassified(results: seq<Result<Classification, BakeError>>, root: Option<Node>, n: nat)
    requires n <= |results| && GenPrefix(results, root, n).Success?
    ensures forall i | 0 <= i < n :: results[i].Success?
    decreases n
  {
    if n > 0 {
      GenPrefixClassified(results, root, n - 1);
    }
  }

  /** The steps before `k` pass, so the run reaches step `k`. */
  lemma {:induction false} GenPrefixReaches(results: seq<Result<Classification, BakeError>>, root: Option<Node>, k: nat)
    requires k <= |results|
    requires forall i | 0 <= i < k :: results[i].Success?
    requires k > 0 ==> RootOk(results[0].value)
    ensures GenPrefix(results, root, k).Success?
    decreases k
  {
    if k > 0 {
      GenPrefixReaches(results, root, k - 1);
    }
  }

  /** Once a step fails, nothing after it runs: the error is its own. */
  lemma {:induction false} FailureSticks(results: seq<Result<Classification, BakeError>>, root: Option<Node>, k: nat, n: nat)
    requires k < n <= |results|
    requires GenPrefix(results, root, k + 1).Failure?
    ensures GenPrefix(results, root, n) == GenPrefix(results, root, k + 1)
    decreases n
  {
    if n > k + 1 {
      FailureSticks(results, root, k, n - 1);
    }
  }

  /** `cs` is what the sources classify as. */
  predicate Classifies(sources: seq<Json>, files: map<string, seq<string>>, cs: seq<Classification>) {
    |cs| == |sources| && forall i | 0 <= i < |sources| :: ClassifySource(sources[i], files) == Success(cs[i])
  }

  /** A run succeeds exactly when every source classifies and the first
      one is a plain `.cpp` file. */
  lemma GenClassesSucceeds(sources: seq<Json>, files: map<string, seq<string>>, root: Option<Node>)
    ensures GenClasses(sources, files, root).Success? <==>
      && (forall i | 0 <= i < |sources| :: ClassifySource(sources[i], files).Success?)
      && (|sources| > 0 ==> RootOk(ClassifySource(sources[0], files).value))
  {
    var rs := ClassifyAll(sources, files);
    if GenClasses(sources, files, root).Success? {
      GenPrefixClassified(rs, root, |sources|);
    }
    if forall i | 0 <= i < |sources| :: ClassifySource(sources[i], files).Success? {
      var cs := seq(|sources|, i requires 0 <= i < |sources| => rs[i].value);
      GenPrefixMatches(rs, root, cs, |sources|);
    }
  }

  /** A successful run holds the index of the classified sources and the
      node of the first source as root. */
  lemma GenClassesResult(sources: seq<Json>, files: map<string, seq<string>>, root: Option<Node>, cs: seq<Classification>)
    requires Classifies(sources, files, cs) && GenClasses(sources, files, root).Success?
    ensures GenClasses(sources, files, root).value.index == Assemble(cs)
    ensures |sources| > 0 ==> GenClasses(sources, files, root).value.root == Some(ToNode(cs[0]))
  {
    GenPrefixMatches(ClassifyAll(sources, files), root, cs, |sources|);
    assert cs[..|sources|] == cs;
  }

  /** The first source that fails decides the error, whatever follows it. */
  lemma FirstFailureDecides(sources: seq<Json>, files: map<string, seq<string>>, root: Option<Node>, k: nat)
    requires k < |sources|
    requires forall i | 0 <= i < k :: ClassifySource(sources[i], files).Success?
    requires k > 0 ==> RootOk(ClassifySource(sources[0], files).value)
    requires ClassifySource(sources[k], files).Failure?
    ensures GenClasses(sources, files, root) == Failure(ClassifySource(sources[k], files).error)
  {
    var rs := ClassifyAll(sources, files);
    GenPrefixReaches(rs, root, k);
    assert GenPrefix(rs, root, k + 1) == Failure(rs[k].error);
    FailureSticks(rs, root, k, |sources|);
  }

  /** A source without a `.cpp` or `.cppm` extension is refused before any
      file is looked at: the error is the same whatever the files hold. */
  lemma BadExtensionFirst(sources: seq<Json>, files: map<string, seq<string>>, root: Option<Node>, k: nat)
    requires k < |sources| && sources[k].JStr?
    requires !(EndsWith(sources[k].s, ".cpp") || EndsWith(sources[k].s, ".cppm"))
    requires forall i | 0 <= i < k :: ClassifySource(sources[i], files).Success?
    requires k > 0 ==> RootOk(ClassifySource(sources[0], files).value)
    ensures GenClasses(sources, files, root) == Failure(BadExtension(sources[k].s))
  {
    FirstFailureDecides(sources, files, root, k);
  }

  /** A first source that classifies but is not a plain `.cpp` file is
      refused. */
  lemma RootMustBePlain(sources: seq<Json>, files: map<string, seq<string>>, root: Option<Node>)
    requires |sources| > 0 && ClassifySource(sources[0], files).Success?
    requires !RootOk(ClassifySource(sources[0], files).value)
    ensures GenClasses(sources, files, root) == Failure(RootNotPlain(sources[0].s))
  {
    var rs := ClassifyAll(sources, files);
    assert GenPrefix(rs, root, 1) == Failure(RootNotPlain(sources[0].s));
    if |sources| > 1 {
      FailureSticks(rs, root, 0, |sources|);
    }
  }

  // ---------------------------------------------------------------------
  // The index, described declaratively

  /** The header units are the union of every source's header units. */
  lemma {:induction false} AssembleHeaderUnits(cs: seq<Classification>)
    ensures Assemble(cs).headerUnits == set i, h | 0 <= i < |cs| && h in cs[i].headerUnits :: h
    decreases |cs|
  {
    if |cs| > 0 {
      var front := cs[..|cs| - 1];
      AssembleHeaderUnits(front);
      var all := set i, h | 0 <= i < |cs| && h in cs[i].headerUnits :: h;
      var before := set i, h | 0 <= i < |front| && h in front[i].headerUnits :: h;
      var added := cs[|cs| - 1].headerUnits;
      assert all == before + set h | h in added by {
        forall h | h in all
          ensures h in before || h in cs[|cs| - 1].headerUnits
        {
          var i :| 0 <= i < |cs| && h in cs[i].headerUnits;
          if i < |front| {
            assert front[i] == cs[i];
          }
        }
        forall h | h in before
          ensures h in all
        {
          var i :| 0 <= i < |front| && h in front[i].headerUnits;
          assert front[i] == cs[i];
        }
      }
    }
  }

  function PlainIndices(cs: seq<Classification>): set<nat> {
    set i: nat | i < |cs| && cs[i].kind == Plain
  }

  lemma PlainIndicesStep(cs: seq<Classification>)
    requires |cs| > 0
    ensures |PlainIndices(cs)| == |PlainIndices(cs[..|cs| - 1])| + (if cs[|cs| - 1].kind == Plain then 1 else 0)
  {
    var n := |cs| - 1;
    var front := cs[..n];
    assert forall i | 0 <= i < n :: front[i] == cs[i];
    var last := if cs[n].kind == Plain then {n} else {};
    assert PlainIndices(cs) == PlainIndices(front) + last;
    assert n !in PlainIndices(front);
  }

  /** One node per plain source, each the node of a plain source. */
  lemma {:induction false} AssemblePlain(cs: seq<Classification>)
    ensures |Assemble(cs).plain| == |PlainIndices(cs)|
    ensures forall node :: node in Assemble(cs).plain <==> exists i | 0 <= i < |cs| :: cs[i].kind == Plain && ToNode(cs[i]) == node
    decreases |cs|
  {
    if |cs| > 0 {
      var n := |cs| - 1;
      var front := cs[..n];
      AssemblePlain(front);
      PlainIndicesStep(cs);
      assert forall i | 0 <= i < n :: front[i] == cs[i];
    }
  }

  /** The source `i` is the last one of kind `k` naming module `name`. */
  predicate LastDeclarer(cs: seq<Classification>, k: ModuleType, name: string, i: int) {
    && 0 <= i < |cs| && cs[i].kind == k && cs[i].moduleName == name
    && forall j | i < j < |cs| :: !(cs[j].kind == k && cs[j].moduleName == name)
  }

  /** Each kind's map holds exactly the modules declared with that kind,
      and each name maps to the node of the last source declaring it: a
      later source overwrites an earlier one of the same name and kind. */
  lemma AssembleKindMap(cs: seq<Classification>, k: ModuleType, name: string)
    requires k != Plain
    ensures name in KindMap(Assemble(cs), k) <==> exists i | 0 <= i < |cs| :: cs[i].kind == k && cs[i].moduleName == name
    ensures forall i | LastDeclarer(cs, k, name, i) :: KindMap(Assemble(cs), k)[name] == ToNode(cs[i])
  {
    KindMapKeys(cs, k, name);
    KindMapLast(cs, k, name);
  }

  lemma {:induction false} KindMapKeys(cs: seq<Classification>, k: ModuleType, name: string)
    requires k != Plain
    ensures name in KindMap(Assemble(cs), k) <==> exists i | 0 <= i < |cs| :: cs[i].kind == k && cs[i].moduleName == name
    decreases |cs|
  {
    if |cs| > 0 {
      var n := |cs| - 1;
      var front := cs[..n];
      KindMapKeys(front, k, name);
      assert forall i | 0 <= i < n :: front[i] == cs[i];
    }
  }

  lemma {:induction false} KindMapLast(cs: seq<Classification>, k: ModuleType, name: string)
    requires k != Plain
    ensures forall i | LastDeclarer(cs, k, name, i) :: name in KindMap(Assemble(cs), k) && KindMap(Assemble(cs), k)[name] == ToNode(cs[i])
    decreases |cs|
  {
    if |cs| > 0 {
      var n := |cs| - 1;
      var front := cs[..n];
      KindMapLast(front, k, name);
      if !(cs[n].kind == k && cs[n].moduleName == name) {
        forall i | LastDeclarer(cs, k, name, i)
          ensures name in KindMap(Assemble(cs), k) && KindMap(Assemble(cs), k)[name] == ToNode(cs[i])
        {
          assert front[i] == cs[i];
          assert LastDeclarer(front, k, name, i);
        }
      }
    }
  }

  /** The root is one of the plain nodes. */
  lemma RootAmongPlain(sources: seq<Json>, files: map<string, seq<string>>, root: Option<Node>)
    requires GenClasses(sources, files, root).Success? && |sources| > 0
    ensures GenClasses(sources, files, root).value.root.Some?
    ensures GenClasses(sources, files, root).value.root.value in GenClasses(sources, files, root).value.index.plain
  {
    GenClassesSucceeds(sources, files, root);
    var cs := seq(|sources|, i requires 0 <= i < |sources| => ClassifySource(sources[i], files).value);
    GenClassesResult(sources, files, root, cs);
    AssemblePlain(cs);
  }

  // ---------------------------------------------------------------------
  // Targets

  /** Targets are processed in order; all must be lists whose sources
      assemble. */
  lemma {:induction false} TargetsSucceed(targets: seq<(string, Json)>, files: map<string, seq<string>>, out: Outcome)
    ensures TargetsFrom(targets, files, out).Success? <==>
      forall i | 0 <= i < |targets| :: targets[i].1.JArray? && GenClasses(targets[i].1.items, files, None).Success?
    decreases |targets|
  {
    if |targets| > 0 && targets[0].1.JArray? {
      var sources := targets[0].1.items;
      GenClassesRootFree(sources, files, out.root);
      assert forall i | 1 <= i < |targets| :: targets[i] == targets[1..][i - 1];
      if GenClasses(sources, files, out.root).Success? {
        var st := GenClasses(sources, files, out.root).value;
        TargetsSucceed(targets[1..], files, Outcome(Some(st.index), st.root));
      }
    }
  }

  lemma MakeTargetsSucceeds(targets: Json, files: map<string, seq<string>>, root: Option<Node>)
    ensures MakeTargets(targets, files, root).Success? <==>
      targets.JObject? &&
      forall i | 0 <= i < |targets.members| ::
        targets.members[i].1.JArray? && GenClasses(targets.members[i].1.items, files, None).Success?
  {
    if targets.JObject? {
      TargetsSucceed(targets.members, files, Outcome(None, root));
    }
  }

  /** The index left behind is the last target's; earlier targets' indexes
      are discarded. */
  lemma {:induction false} LastTargetIndex(targets: seq<(string, Json)>, files: map<string, seq<string>>, out: Outcome)
    requires TargetsFrom(targets, files, out).Success? && |targets| > 0
    ensures TargetsFrom(targets, files, out).value.last ==
      Some(GenClasses(targets[|targets| - 1].1.items, files, None).value.index)
    decreases |targets|
  {
    var sources := targets[0].1.items;
    GenClassesRootFree(sources, files, out.root);
    var st := GenClasses(sources, files, out.root).value;
    if |targets| > 1 {
      LastTargetIndex(targets[1..], files, Outcome(Some(st.index), st.root));
      assert targets[1..][|targets[1..]| - 1] == targets[|targets| - 1];
    }
  }

  /** Target `i` is the last one with at least one source. */
  predicate LastNonEmpty(targets: seq<(string, Json)>, i: int) {
    && 0 <= i < |targets| && targets[i].1.JArray? && |targets[i].1.items| > 0
    && forall j | i < j < |targets| :: targets[j].1.JArray? ==> |targets[j].1.items| == 0
  }

  /** The root survives from one target to the next: it is the first source
      of the last target that has sources, or the root held before when no
      target has any. */
  lemma {:induction false} RootAfterTargets(targets: seq<(string, Json)>, files: map<string, seq<string>>, out: Outcome)
    requires TargetsFrom(targets, files, out).Success?
    ensures (forall i | 0 <= i < |targets| :: |targets[i].1.items| == 0) ==>
      TargetsFrom(targets, files, out).value.root == out.root
    ensures forall i | LastNonEmpty(targets, i) ::
      TargetsFrom(targets, files, out).value.root == GenClasses(targets[i].1.items, files, None).value.root
    decreases |targets|
  {
    if |targets| > 0 {
      var sources := targets[0].1.items;
      GenClassesRootFree(sources, files, out.root);
      var st := GenClasses(sources, files, out.root).value;
      var next := Outcome(Some(st.index), st.root);
      RootAfterTargets(targets[1..], files, next);
      assert forall i | 1 <= i < |targets| :: targets[i] == targets[1..][i - 1];
      forall i | LastNonEmpty(targets, i)
        ensures TargetsFrom(targets, files, out).value.root == GenClasses(targets[i].1.items, files, None).value.root
      {
        if i > 0 {
          assert LastNonEmpty(targets[1..], i - 1);
        } else {
          assert forall j | 0 <= j < |targets[1..]| :: |targets[1..][j].1.items| == 0;
        }
      }
    }
  }
}
