/** `Baker.load_bakerfile`: the user's bakerfile merged with the default
    options. Reading and parsing the file are not modelled: the document
    arrives parsed, or `None` when there is no bakerfile. */
module Bakerfile {
  import opened Wrappers
  import opened JsonValues

  datatype LoadError =
    | MissingBakerfile                          // RuntimeError: no file
    | MissingTargets                            // ValueError: no `targets`
    | SubkeyType(key: string, subkey: string)   // TypeError: a value of the wrong type
    | NotAContainer                             // TypeError: `in` or `[]` on an unsuitable value or key
    | OutOfRange                                // IndexError: an integer past the end of a list document

  const DefaultDirs: seq<(string, Json)> :=
    [("source", JStr("src")), ("build", JStr("build")), ("object", JStr("obj")), ("header_units", JStr("header_units"))]

  const DefaultFlags: seq<(string, Json)> :=
    [("debug", JArray([JStr("-g"), JStr("-DDEBUG")])), ("release", JArray([JStr("-O3"), JStr("-DNDEBUG")]))]

  /** `options_default`: three sections, each a dict of subkeys. */
  const Defaults: seq<(string, seq<(string, Json)>)> :=
    [("dirs", DefaultDirs), ("flags", DefaultFlags), ("options", [])]

  predicate IsSection(key: string) {
    key == "dirs" || key == "flags" || key == "options"
  }

  function Lift<T>(r: Result<T, Unsupported>): Result<T, LoadError> {
    match r
    case Success(v) => Success(v)
    case Failure(_) => Failure(NotAContainer)
  }

  /** A merged section next to its defaults: the same subkeys in the same
      order, each value of the same type as its default. */
  predicate Conforms(merged: seq<(string, Json)>, defs: seq<(string, Json)>) {
    && |merged| == |defs|
    && forall i | 0 <= i < |defs| :: merged[i].0 == defs[i].0 && TypeOf(merged[i].1) == TypeOf(defs[i].1)
  }

  /** One section whose key the user's document has: each default subkey
      takes the user's value when the section has it and the types agree,
      fails when the types differ, and keeps the default otherwise. User
      subkeys unknown to the defaults are dropped. */
  function MergeSubkeys(section: Json, defs: seq<(string, Json)>, key: string): (r: Result<seq<(string, Json)>, LoadError>)
    ensures r.Success? ==> Conforms(r.value, defs)
    ensures r.Failure? ==> r.error == NotAContainer || (r.error.SubkeyType? && r.error.key == key)
    ensures section.JObject? && r.Success? ==> forall i | 0 <= i < |defs| ::
      r.value[i].1 == (if HasKey(section.members, defs[i].0) then Lookup(section.members, defs[i].0).value else defs[i].1)
    ensures section.JObject? ==> (r.Success? <==> forall i | 0 <= i < |defs| ::
      HasKey(section.members, defs[i].0) ==> TypeOf(Lookup(section.members, defs[i].0).value) == TypeOf(defs[i].1))
    decreases |defs|
  {
    if |defs| == 0 then Success([])
    else
      var subkey := defs[0].0;
      var present :- Lift(Contains(section, subkey));
      var entry :-
        if present then
          var value :- Lift(Index(section, subkey));
          if TypeOf(value) != TypeOf(defs[0].1) then Failure(SubkeyType(key, subkey)) else Success((subkey, value))
        else Success(defs[0]);
      var rest :- MergeSubkeys(section, defs[1..], key);
      assert forall i | 1 <= i < |defs| :: defs[i] == defs[1..][i - 1];
      Success([entry] + rest)
  }

  /** One section of the options. A section the document lacks is the
      default whole. A section it has is merged subkey by subkey; a
      section without default subkeys becomes empty whatever the user
      wrote, since nothing looks inside it. */
  function MergeSection(doc: Json, key: string, defs: seq<(string, Json)>): (r: Result<seq<(string, Json)>, LoadError>)
    requires doc.JObject? || doc.JArray? || doc.JStr?
    ensures r.Success? ==> Conforms(r.value, defs)
    ensures r.Failure? ==> r.error == NotAContainer || (r.error.SubkeyType? && r.error.key == key)
  {
    var present := Contains(doc, key).value;
    if !present then Success(defs)
    else if |defs| == 0 then Success([])
    else
      var user :- Lift(Index(doc, key));
      MergeSubkeys(user, defs, key)
  }

  /** The three sections in default order; the first failing section
      decides the error. */
  function MergeSections(doc: Json, defaults: seq<(string, seq<(string, Json)>)>): (r: Result<seq<(string, Json)>, LoadError>)
    requires doc.JObject? || doc.JArray? || doc.JStr?
    ensures r.Success? <==> forall i | 0 <= i < |defaults| :: MergeSection(doc, defaults[i].0, defaults[i].1).Success?
    ensures r.Failure? ==> r.error.NotAContainer? || r.error.SubkeyType?
    ensures r.Success? ==> |r.value| == |defaults|
    ensures r.Success? ==> forall i | 0 <= i < |defaults| ::
      r.value[i] == (defaults[i].0, JObject(MergeSection(doc, defaults[i].0, defaults[i].1).value))
    decreases |defaults|
  {
    if |defaults| == 0 then Success([])
    else
      var section :- MergeSection(doc, defaults[0].0, defaults[0].1);
      var rest := MergeSections(doc, defaults[1..]);
      assert forall i | 1 <= i < |defaults| :: defaults[i] == defaults[1..][i - 1];
      if rest.Failure? then rest
      else Success([(defaults[0].0, JObject(section))] + rest.value)
  }

  /** The final loop: every member of the document whose key the options
      do not hold yet is appended, in document order. */
  function Extras(members: seq<(string, Json)>, taken: seq<(string, Json)>): (r: seq<(string, Json)>)
    ensures forall i | 0 <= i < |r| :: r[i] in members && !HasKey(taken, r[i].0)
    ensures forall i | 0 <= i < |members| :: HasKey(taken, members[i].0) || HasKey(r, members[i].0)
    ensures DistinctKeys(r)
    decreases |members|
  {
    if |members| == 0 then []
    else if HasKey(taken, members[0].0) then
      var r := Extras(members[1..], taken);
      assert forall i | 1 <= i < |members| :: members[i] == members[1..][i - 1];
      r
    else
      var rest := Extras(members[1..], taken + [members[0]]);
      ExtrasCons(members, taken, rest);
      [members[0]] + rest
  }

  /** The step of `Extras` that keeps the first member: what holds of the
      rest carries over once the first member is put in front. */
  lemma ExtrasCons(members: seq<(string, Json)>, taken: seq<(string, Json)>, rest: seq<(string, Json)>)
    requires |members| > 0 && !HasKey(taken, members[0].0)
    requires forall i | 0 <= i < |rest| :: rest[i] in members[1..] && !HasKey(taken + [members[0]], rest[i].0)
    requires forall i | 0 <= i < |members[1..]| :: HasKey(taken + [members[0]], members[1..][i].0) || HasKey(rest, members[1..][i].0)
    requires DistinctKeys(rest)
    ensures forall i | 0 <= i < |[members[0]] + rest| :: ([members[0]] + rest)[i] in members && !HasKey(taken, ([members[0]] + rest)[i].0)
    ensures forall i | 0 <= i < |members| :: HasKey(taken, members[i].0) || HasKey([members[0]] + rest, members[i].0)
    ensures DistinctKeys([members[0]] + rest)
  {
    var r := [members[0]] + rest;
    assert forall i | 1 <= i < |members| :: members[i] == members[1..][i - 1];
    forall i | 0 <= i < |r|
      ensures r[i] in members && !HasKey(taken, r[i].0)
    {
      if i > 0 {
        assert r[i] == rest[i - 1];
        assert !HasKey(taken + [members[0]], r[i].0);
        assert forall j | 0 <= j < |taken| :: taken[j] == (taken + [members[0]])[j];
      }
    }
    forall i | 0 <= i < |members|
      ensures HasKey(taken, members[i].0) || HasKey(r, members[i].0)
    {
      if i == 0 {
        assert r[0] == members[0];
      } else if !HasKey(taken, members[i].0) {
        if HasKey(taken + [members[0]], members[i].0) {
          assert forall j | 0 <= j < |taken| :: (taken + [members[0]])[j] == taken[j];
          assert members[0].0 == members[i].0;
          assert r[0].0 == members[i].0;
        } else {
          var k :| 0 <= k < |rest| && rest[k].0 == members[i].0;
          assert r[k + 1].0 == members[i].0;
        }
      }
    }
    forall i, j | 0 <= i < j < |r|
      ensures r[i].0 != r[j].0
    {
      if i == 0 {
        assert r[j] == rest[j - 1];
        assert !HasKey(taken + [members[0]], rest[j - 1].0);
        assert (taken + [members[0]])[|taken|] == members[0];
      } else {
        assert r[i] == rest[i - 1] && r[j] == rest[j - 1];
      }
    }
  }

  /** Appending the extras to distinct keys keeps the keys distinct and
      loses none of the document's keys. */
  lemma ExtrasAfter(members: seq<(string, Json)>, taken: seq<(string, Json)>, key: string)
    requires DistinctKeys(taken)
    ensures DistinctKeys(taken + Extras(members, taken))
    ensures HasKey(members, key) ==> HasKey(taken + Extras(members, taken), key)
  {
    var extras := Extras(members, taken);
    var all := taken + extras;
    forall i, j | 0 <= i < j < |all|
      ensures all[i].0 != all[j].0
    {
      if j >= |taken| {
        assert all[j] == extras[j - |taken|];
        if i < |taken| {
          assert !HasKey(taken, all[j].0);
        } else {
          assert all[i] == extras[i - |taken|];
        }
      }
    }
    if HasKey(members, key) {
      var j :| 0 <= j < |members| && members[j].0 == key;
      if HasKey(taken, key) {
        var i :| 0 <= i < |taken| && taken[i].0 == key;
        assert all[i] == taken[i];
      } else {
        var i :| 0 <= i < |extras| && extras[i].0 == key;
        assert all[|taken| + i] == extras[i];
      }
    }
  }

  /** The integer a value stands for when it subscripts a list: `bool` is
      a subclass of `int`, so `True` and `False` are 1 and 0; no other
      value is an index. */
  function AsIndex(key: Json): Option<int> {
    match key
    case JInt(n) => Some(n)
    case JBool(b) => Some(if b then 1 else 0)
    case _ => None
  }

  /** `i` picks an element of a list of length `len`, counting negative
      indices from the end. */
  predicate ListIndex(i: int, len: nat) {
    -(len as int) <= i < len
  }

  /** What `for key in options` does with one element `key` of a list
      document of length `len`: a section name is already in the options
      and is skipped; an integer or a boolean within `-len .. len - 1`
      indexes the list and is copied; an integer or boolean outside
      raises `IndexError`; any other string, `None` and a float cannot
      index a list, and a list or a dict cannot even be looked up in the
      options, so they raise `TypeError`. */
  function KeyError(key: Json, len: nat): (r: Option<LoadError>)
    ensures r.None? <==> (key.JStr? && IsSection(key.s)) || (AsIndex(key).Some? && ListIndex(AsIndex(key).value, len))
    ensures r == Some(OutOfRange) <==> AsIndex(key).Some? && !ListIndex(AsIndex(key).value, len)
    ensures r == Some(NotAContainer) <==> AsIndex(key).None? && !(key.JStr? && IsSection(key.s))
  {
    match key
    case JStr(s) => if IsSection(s) then None else Some(NotAContainer)
    case JInt(n) => if -(len as int) <= n < len then None else Some(OutOfRange)
    case JBool(b) => if -(len as int) <= (if b then 1 else 0) < len then None else Some(OutOfRange)
    case _ => Some(NotAContainer)
  }

  /** The final loop over a list document: the first element that raises
      decides the error, and `None` means every element went through. */
  function ListKeysError(items: seq<Json>, len: nat): (r: Option<LoadError>)
    ensures r.None? <==> forall i | 0 <= i < |items| :: KeyError(items[i], len).None?
    ensures r.Some? ==> exists i | 0 <= i < |items| ::
      r == KeyError(items[i], len) && forall j | 0 <= j < i :: KeyError(items[j], len).None?
    decreases |items|
  {
    if |items| == 0 then None
    else if KeyError(items[0], len).Some? then KeyError(items[0], len)
    else
      var r := ListKeysError(items[1..], len);
      assert forall i | 1 <= i < |items| :: items[i] == items[1..][i - 1];
      if r.Some? then
        var i :| 0 <= i < |items[1..]| && r == KeyError(items[1..][i], len) &&
          forall j | 0 <= j < i :: KeyError(items[1..][j], len).None?;
        assert r == KeyError(items[i + 1], len);
        r
      else r
  }

  /** A list document holding "targets" never gets through the loop. */
  lemma TargetsRaises(items: seq<Json>)
    requires JStr("targets") in items
    ensures ListKeysError(items, |items|).Some?
  {
    var i :| 0 <= i < |items| && items[i] == JStr("targets");
    assert KeyError(items[i], |items|).Some?;
  }

  /** The options after `load_bakerfile`, or the error it raises. */
  function LoadBakerfile(file: Option<Json>): (r: Result<Json, LoadError>)
    ensures r.Success? ==> file.Some? && file.value.JObject? && HasKey(file.value.members, "targets")
    ensures r.Success? ==> r.value.JObject? && |r.value.members| >= |Defaults| && DistinctKeys(r.value.members)
    ensures r.Success? ==> HasKey(r.value.members, "targets")
    ensures r.Success? ==> forall i | 0 <= i < |Defaults| ::
      r.value.members[i].0 == Defaults[i].0 && r.value.members[i].1.JObject? && Conforms(r.value.members[i].1.members, Defaults[i].1)
  {
    match file
    case None => Failure(MissingBakerfile)
    case Some(doc) =>
      var hasTargets :- Lift(Contains(doc, "targets"));
      if !hasTargets then Failure(MissingTargets)
      else
        var sections :- MergeSections(doc, Defaults);
        if doc.JStr? then
          // `for key in options` goes through the string's characters; a
          // single character is no section name, and a string cannot be
          // indexed by a string.
          Failure(NotAContainer)
        else if doc.JArray? then
          // The list holds the string "targets", so some element raises.
          TargetsRaises(doc.items);
          Failure(ListKeysError(doc.items, |doc.items|).value)
        else
          var members := sections + Extras(doc.members, sections);
          assert forall i | 0 <= i < |sections| :: sections[i].0 == Defaults[i].0;
          ExtrasAfter(doc.members, sections, "targets");
          Success(JObject(members))
  }
}
