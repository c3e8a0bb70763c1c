/** What merging a bakerfile with the defaults promises: when it fails and
    why, what each section ends up holding, that the user's other keys
    come through untouched, and that merging the result again changes
    nothing. */
module BakerfileProperties {
  import opened Wrappers
  import opened JsonValues
  import opened Bakerfile

  /** A document without `targets` is refused. */
  lemma NoTargetsFails(doc: Json)
    requires doc.JObject? && !HasKey(doc.members, "targets")
    ensures LoadBakerfile(Some(doc)) == Failure(MissingTargets)
  {
  }

  /** A document that is not an object is refused: `MissingTargets` when
      a list or a string lacks `"targets"`, and otherwise a `TypeError`
      or, for a list, possibly an `IndexError` (`ListDocumentFails`). */
  lemma NonObjectFails(doc: Json)
    requires !doc.JObject?
    ensures LoadBakerfile(Some(doc)).Failure?
    ensures LoadBakerfile(Some(doc)) == Failure(MissingTargets) <==>
      (doc.JArray? && JStr("targets") !in doc.items) || (doc.JStr? && !IsSubstring("targets", doc.s))
  {
    if doc.JArray? || doc.JStr? {
      if Contains(doc, "targets").value {
        var sections := MergeSections(doc, Defaults);
        assert Lift(Contains(doc, "targets")) == Success(true);
      }
    }
  }

  /** A list document holding `"targets"` whose sections merge fails in
      the final loop, with the error of its first element that cannot be
      used as a key: `TypeError` or `IndexError`. */
  lemma ListDocumentFails(items: seq<Json>)
    requires JStr("targets") in items && MergeSections(JArray(items), Defaults).Success?
    ensures LoadBakerfile(Some(JArray(items))) == Failure(ListKeysError(items, |items|).value)
    ensures exists i | 0 <= i < |items| ::
      && KeyError(items[i], |items|).Some?
      && LoadBakerfile(Some(JArray(items))) == Failure(KeyError(items[i], |items|).value)
      && forall j | 0 <= j < i :: KeyError(items[j], |items|).None?
  {
    TargetsRaises(items);
    assert Lift(Contains(JArray(items), "targets")) == Success(true);
  }

  /** `[5, "targets"]`: the loop reaches `options[5]` on a list of two
      elements before it reaches the string. */
  lemma IndexPastEnd()
    ensures LoadBakerfile(Some(JArray([JInt(5), JStr("targets")]))) == Failure(OutOfRange)
  {
    var items := [JInt(5), JStr("targets")];
    assert JStr("targets") in items;
    assert MergeSections(JArray(items), Defaults).Success?;
    ListDocumentFails(items);
  }

  /** The user section `user` can be merged with the subkeys `defs`: every
      default subkey the section holds is found in a dict, with a value of
      the default's type. A list or string holding none of the subkeys
      passes untouched; a number, a boolean or null does not. */
  predicate Acceptable(user: Json, defs: seq<(string, Json)>) {
    forall i | 0 <= i < |defs| ::
      && Contains(user, defs[i].0).Success?
      && (Contains(user, defs[i].0).value ==>
            user.JObject? && TypeOf(Lookup(user.members, defs[i].0).value) == TypeOf(defs[i].1))
  }

  /** What a section has to be for the merge to go through. */
  predicate SectionOk(doc: Json, key: string, defs: seq<(string, Json)>)
    requires doc.JObject?
  {
    !HasKey(doc.members, key) || |defs| == 0 || Acceptable(Lookup(doc.members, key).value, defs)
  }

  /** Merging a user section succeeds exactly when it is acceptable. */
  lemma {:induction false} MergeSubkeysAcceptable(user: Json, defs: seq<(string, Json)>, key: string)
    ensures MergeSubkeys(user, defs, key).Success? <==> Acceptable(user, defs)
    decreases |defs|
  {
    if |defs| > 0 {
      MergeSubkeysAcceptable(user, defs[1..], key);
      var head := Contains(user, defs[0].0).Success? && (Contains(user, defs[0].0).value ==>
        user.JObject? && TypeOf(Lookup(user.members, defs[0].0).value) == TypeOf(defs[0].1));
      assert MergeSubkeys(user, defs, key).Success? <==> head && MergeSubkeys(user, defs[1..], key).Success?;
      assert forall i | 1 <= i < |defs| :: defs[i] == defs[1..][i - 1];
      assert Acceptable(user, defs) <==> head && Acceptable(user, defs[1..]);
    }
  }

  /** The merge succeeds exactly for an object holding `targets` whose
      `dirs` and `flags` sections are acceptable; `options` may hold
      anything. */
  lemma LoadSucceeds(doc: Json)
    ensures LoadBakerfile(Some(doc)).Success? <==>
      && doc.JObject? && HasKey(doc.members, "targets")
      && SectionOk(doc, "dirs", DefaultDirs) && SectionOk(doc, "flags", DefaultFlags)
  {
    if doc.JObject? {
      SectionMerges(doc, "dirs", DefaultDirs);
      SectionMerges(doc, "flags", DefaultFlags);
      SectionMerges(doc, "options", []);
      assert Defaults[0] == ("dirs", DefaultDirs) && Defaults[1] == ("flags", DefaultFlags) && Defaults[2] == ("options", []);
      assert MergeSections(doc, Defaults).Success? <==>
        SectionOk(doc, "dirs", DefaultDirs) && SectionOk(doc, "flags", DefaultFlags);
    }
  }

  /** One section of an object merges exactly when it is acceptable. */
  lemma SectionMerges(doc: Json, key: string, defs: seq<(string, Json)>)
    requires doc.JObject?
    ensures MergeSection(doc, key, defs).Success? <==> SectionOk(doc, key, defs)
  {
    if HasKey(doc.members, key) && |defs| > 0 {
      MergeSubkeysAcceptable(Lookup(doc.members, key).value, defs, key);
    }
  }

  /** The section a merged document holds at position `k`. */
  function SectionAt(options: Json, k: nat): seq<(string, Json)>
    requires options.JObject? && k < |options.members| && options.members[k].1.JObject?
  {
    options.members[k].1.members
  }

  /** A section the document lacks is the default section whole. */
  lemma AbsentSectionIsDefault(doc: Json, k: nat)
    requires k < |Defaults| && LoadBakerfile(Some(doc)).Success?
    requires !HasKey(doc.members, Defaults[k].0)
    ensures SectionAt(LoadBakerfile(Some(doc)).value, k) == Defaults[k].1
  {
  }

  /** A section the document has as a dict keeps, for each default subkey,
      the user's value when there is one and the default otherwise, and
      nothing else. */
  lemma PresentSectionMerged(doc: Json, k: nat, i: nat)
    requires k < |Defaults| && LoadBakerfile(Some(doc)).Success?
    requires HasKey(doc.members, Defaults[k].0) && Lookup(doc.members, Defaults[k].0).value.JObject?
    requires i < |Defaults[k].1|
    ensures |SectionAt(LoadBakerfile(Some(doc)).value, k)| == |Defaults[k].1|
    ensures SectionAt(LoadBakerfile(Some(doc)).value, k)[i] ==
      var user := Lookup(doc.members, Defaults[k].0).value.members;
      var subkey := Defaults[k].1[i].0;
      (subkey, if HasKey(user, subkey) then Lookup(user, subkey).value else Defaults[k].1[i].1)
  {
  }

  /** A subkey present with a value whose type differs from the default's
      makes the merge fail. */
  lemma MismatchFails(doc: Json, k: nat, i: nat)
    requires doc.JObject? && k < |Defaults| && i < |Defaults[k].1|
    requires HasKey(doc.members, Defaults[k].0)
    requires Lookup(doc.members, Defaults[k].0).value.JObject?
    requires var user := Lookup(doc.members, Defaults[k].0).value.members;
      HasKey(user, Defaults[k].1[i].0) && TypeOf(Lookup(user, Defaults[k].1[i].0).value) != TypeOf(Defaults[k].1[i].1)
    ensures LoadBakerfile(Some(doc)).Failure?
  {
    LoadSucceeds(doc);
    assert Defaults[0] == ("dirs", DefaultDirs) && Defaults[1] == ("flags", DefaultFlags);
    assert Contains(Lookup(doc.members, Defaults[k].0).value, Defaults[k].1[i].0).value;
  }

  /** The options are the three merged sections followed by the extras. */
  lemma OptionsLayout(doc: Json)
    requires LoadBakerfile(Some(doc)).Success?
    ensures doc.JObject? && MergeSections(doc, Defaults).Success?
    ensures LoadBakerfile(Some(doc)).value.members ==
      MergeSections(doc, Defaults).value + Extras(doc.members, MergeSections(doc, Defaults).value)
    ensures forall i | 0 <= i < |MergeSections(doc, Defaults).value| ::
      MergeSections(doc, Defaults).value[i].0 == Defaults[i].0 && IsSection(Defaults[i].0)
  {
  }

  lemma {:induction false} LookupSkip(taken: seq<(string, Json)>, rest: seq<(string, Json)>, key: string)
    requires !HasKey(taken, key)
    ensures Lookup(taken + rest, key) == Lookup(rest, key)
    decreases |taken|
  {
    if |taken| > 0 {
      assert (taken + rest)[1..] == taken[1..] + rest;
      assert (taken + rest)[0] == taken[0];
      assert !HasKey(taken[1..], key) by {
        assert forall i | 0 <= i < |taken[1..]| :: taken[1..][i] == taken[i + 1];
      }
      LookupSkip(taken[1..], rest, key);
    } else {
      assert taken + rest == rest;
    }
  }

  /** After the keys in `taken`, the extras answer for every other key
      exactly as the document does. */
  lemma ExtrasLookup(members: seq<(string, Json)>, taken: seq<(string, Json)>, key: string)
    requires DistinctKeys(members) && !HasKey(taken, key)
    ensures Lookup(taken + Extras(members, taken), key) == Lookup(members, key)
  {
    var ex := Extras(members, taken);
    LookupSkip(taken, ex, key);
    if HasKey(members, key) {
      var j :| 0 <= j < |members| && members[j].0 == key;
      var i :| 0 <= i < |ex| && ex[i].0 == key;
      var m :| 0 <= m < |members| && members[m] == ex[i];
      LookupDistinct(members, m);
      LookupDistinct(ex, i);
    }
  }

  /** Every key of the document that is not a section name is copied with
      its value, and the options hold no key the document and the defaults
      do not. */
  lemma ExtrasCopied(doc: Json, key: string)
    requires LoadBakerfile(Some(doc)).Success? && DistinctKeys(doc.members)
    ensures HasKey(LoadBakerfile(Some(doc)).value.members, key) ==> IsSection(key) || HasKey(doc.members, key)
    ensures !IsSection(key) ==> Lookup(LoadBakerfile(Some(doc)).value.members, key) == Lookup(doc.members, key)
  {
    OptionsLayout(doc);
    var sections := MergeSections(doc, Defaults).value;
    var extras := Extras(doc.members, sections);
    var options := sections + extras;
    if !IsSection(key) {
      assert !HasKey(sections, key);
      ExtrasLookup(doc.members, sections, key);
      if HasKey(options, key) {
        var i :| 0 <= i < |options| && options[i].0 == key;
        assert options[i] == extras[i - |sections|];
        assert extras[i - |sections|] in doc.members;
      }
    }
  }

  // ---------------------------------------------------------------------
  // Merging a merged document again

  /** A section that already conforms to its defaults merges to itself. */
  lemma {:induction false} MergeConforming(section: seq<(string, Json)>, defs: seq<(string, Json)>, from: nat, key: string)
    requires from <= |defs| && Conforms(section, defs) && DistinctKeys(section)
    ensures MergeSubkeys(JObject(section), defs[from..], key) == Success(section[from..])
    decreases |defs| - from
  {
    if from < |defs| {
      LookupDistinct(section, from);
      assert HasKey(section, defs[from].0) by {
        assert section[from].0 == defs[from].0;
      }
      MergeConforming(section, defs, from + 1, key);
      assert defs[from..][1..] == defs[from + 1..];
      assert section[from..] == [section[from]] + section[from + 1..];
    }
  }

  lemma DefaultsDistinct(k: nat)
    requires k < |Defaults|
    ensures DistinctKeys(Defaults[k].1)
  {
  }

  /** Extras already present in `taken` are skipped, and new distinct ones
      are all kept. */
  lemma {:induction false} ExtrasSkip(a: seq<(string, Json)>, rest: seq<(string, Json)>, taken: seq<(string, Json)>)
    requires forall i | 0 <= i < |a| :: HasKey(taken, a[i].0)
    ensures Extras(a + rest, taken) == Extras(rest, taken)
    decreases |a|
  {
    if |a| > 0 {
      assert (a + rest)[0] == a[0];
      assert (a + rest)[1..] == a[1..] + rest;
      ExtrasSkip(a[1..], rest, taken);
    } else {
      assert a + rest == rest;
    }
  }

  lemma {:induction false} ExtrasKeepAll(ex: seq<(string, Json)>, taken: seq<(string, Json)>)
    requires DistinctKeys(ex)
    requires forall i | 0 <= i < |ex| :: !HasKey(taken, ex[i].0)
    ensures Extras(ex, taken) == ex
    decreases |ex|
  {
    if |ex| > 0 {
      var t := taken + [ex[0]];
      forall i | 0 <= i < |ex[1..]|
        ensures !HasKey(t, ex[1..][i].0)
      {
        assert ex[1..][i] == ex[i + 1];
        assert forall j | 0 <= j < |taken| :: t[j] == taken[j];
      }
      ExtrasKeepAll(ex[1..], t);
      assert ex == [ex[0]] + ex[1..];
    }
  }

  /** What every successful merge produces. */
  predicate Merged(options: Json) {
    && options.JObject?
    && |options.members| >= |Defaults|
    && DistinctKeys(options.members)
    && forall i | 0 <= i < |Defaults| ::
         options.members[i].0 == Defaults[i].0 && options.members[i].1.JObject? &&
         Conforms(options.members[i].1.members, Defaults[i].1)
  }

  lemma SectionStable(options: Json, k: nat)
    requires Merged(options) && k < |Defaults|
    ensures MergeSection(options, Defaults[k].0, Defaults[k].1) == Success(SectionAt(options, k))
  {
    var m := options.members;
    LookupDistinct(m, k);
    assert HasKey(m, Defaults[k].0) by {
      assert m[k].0 == Defaults[k].0;
    }
    var sec := SectionAt(options, k);
    if |Defaults[k].1| > 0 {
      DefaultsDistinct(k);
      assert DistinctKeys(sec) by {
        forall i, j | 0 <= i < j < |sec|
          ensures sec[i].0 != sec[j].0
        {
          assert sec[i].0 == Defaults[k].1[i].0 && sec[j].0 == Defaults[k].1[j].0;
        }
      }
      MergeConforming(sec, Defaults[k].1, 0, Defaults[k].0);
      assert Defaults[k].1[0..] == Defaults[k].1 && sec[0..] == sec;
    }
  }

  lemma SectionsStable(options: Json)
    requires Merged(options)
    ensures MergeSections(options, Defaults) == Success(options.members[..|Defaults|])
  {
    forall k | 0 <= k < |Defaults|
      ensures MergeSection(options, Defaults[k].0, Defaults[k].1) == Success(SectionAt(options, k))
    {
      SectionStable(options, k);
    }
    MergeSectionsOf(options, Defaults);
  }

  /** When every section merges to what `options` already holds there,
      merging the sections gives the front of `options` back. */
  lemma MergeSectionsOf(options: Json, ds: seq<(string, seq<(string, Json)>)>)
    requires options.JObject? && |options.members| >= |ds|
    requires forall k | 0 <= k < |ds| :: options.members[k].0 == ds[k].0 && options.members[k].1.JObject?
    requires forall k | 0 <= k < |ds| :: MergeSection(options, ds[k].0, ds[k].1) == Success(SectionAt(options, k))
    ensures MergeSections(options, ds) == Success(options.members[..|ds|])
  {
    var again := MergeSections(options, ds);
    assert again.Success?;
    forall k | 0 <= k < |ds|
      ensures again.value[k] == options.members[k]
    {
      assert again.value[k] == (ds[k].0, JObject(SectionAt(options, k)));
    }
    var front := options.members[..|ds|];
    assert |again.value| == |front|;
    assert forall k | 0 <= k < |ds| :: front[k] == options.members[k];
    assert again.value == front;
  }

  /** Loading the options a bakerfile merged to gives them back unchanged. */
  lemma LoadIdempotent(doc: Json)
    requires LoadBakerfile(Some(doc)).Success?
    ensures LoadBakerfile(Some(LoadBakerfile(Some(doc)).value)) == LoadBakerfile(Some(doc))
  {
    var options := LoadBakerfile(Some(doc)).value;
    OptionsLayout(doc);
    var m := options.members;
    var sections := MergeSections(doc, Defaults).value;
    var extras := Extras(doc.members, sections);
    assert m == sections + extras;
    assert HasKey(m, "targets") by {
      var j :| 0 <= j < |doc.members| && doc.members[j].0 == "targets";
      assert !HasKey(sections, "targets");
      var i :| 0 <= i < |extras| && extras[i].0 == "targets";
      assert m[|sections| + i] == extras[i];
    }
    SectionsStable(options);
    assert m[..|Defaults|] == sections;
    ExtrasSkip(sections, extras, sections);
    assert forall i | 0 <= i < |sections| :: HasKey(sections, sections[i].0);
    ExtrasKeepAll(extras, sections);
  }
}
