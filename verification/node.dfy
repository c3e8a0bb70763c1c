/** `Node`: a vertex of the dependency graph, made of a parent, a list of
    children and the keyword arguments it was built with. Construction
    checks the arguments and raises on the first problem it meets. */
module Nodes {
  import opened Wrappers
  import opened Utility

  /** The Python values a node's keyword arguments hold, as far as the
      check can tell them apart. `Other` is any further object, named by
      its type; a subclass of `str` is such an object. */
  datatype Value =
    | Str(s: string)
    | Kind(t: ModuleType)
    | List(items: seq<Value>)
    | Other(typeName: string)

  /** What `type(v)` answers. */
  datatype TypeTag = StrType | KindType | ListType | OtherType(name: string)

  function TypeOf(v: Value): TypeTag {
    match v
    case Str(_) => StrType
    case Kind(_) => KindType
    case List(_) => ListType
    case Other(n) => OtherType(n)
  }

  /** A child is another node, a string, or (rejected by the check)
      anything else. */
  datatype Child =
    | NodeChild(node: Node)
    | StrChild(s: string)
    | OtherChild(typeName: string)

  datatype Node = Node(parent: Option<Node>, children: seq<Child>, data: map<string, Value>)

  datatype NodeError =
    | MissingKey(key: string)    // KeyError
    | WrongType(key: string)     // TypeError for a required key
    | BadChild                   // TypeError for a child
    | Clash                      // TypeError: a keyword argument repeats a parameter

  /** The keyword arguments arrive as `**kwargs` after the positional
      `self`, `parent` and `children`; a keyword with one of those names
      gives the parameter a second value, and Python refuses the call before
      the constructor's body runs. */
  predicate Clashes(data: map<string, Value>) {
    "self" in data || "parent" in data || "children" in data
  }

  /** The required keys and their exact types, in the order they are checked. */
  const Required: seq<(string, TypeTag)> := [("module", StrType), ("filename", StrType), ("type", KindType)]

  /** Required key number `i` is present and of exactly its type. */
  predicate Holds(data: map<string, Value>, i: nat)
    requires i < |Required|
  {
    Required[i].0 in data && TypeOf(data[Required[i].0]) == Required[i].1
  }

  predicate ChildOk(c: Child) {
    c.NodeChild? || c.StrChild?
  }

  /** The checks of the required keys from number `i` on. */
  function CheckKeys(data: map<string, Value>, i: nat): (r: Option<NodeError>)
    requires i <= |Required|
    ensures r.None? <==> forall k | i <= k < |Required| :: Holds(data, k)
    ensures r.Some? ==> exists k | i <= k < |Required| ::
      (forall j | i <= j < k :: Holds(data, j)) &&
      r.value == (if Required[k].0 !in data then MissingKey(Required[k].0) else WrongType(Required[k].0))
    decreases |Required| - i
  {
    if i == |Required| then None
    else if Required[i].0 !in data then
      assert !Holds(data, i);
      Some(MissingKey(Required[i].0))
    else if TypeOf(data[Required[i].0]) != Required[i].1 then
      assert !Holds(data, i);
      Some(WrongType(Required[i].0))
    else CheckKeys(data, i + 1)
  }

  /** `Node.check`: the required keys in order, then the children. */
  function Check(children: seq<Child>, data: map<string, Value>): (r: Option<NodeError>)
    ensures r.None? <==> (forall k | 0 <= k < |Required| :: Holds(data, k)) && (forall i | 0 <= i < |children| :: ChildOk(children[i]))
    ensures r == Some(BadChild) <==>
      (forall k | 0 <= k < |Required| :: Holds(data, k)) && (exists i | 0 <= i < |children| :: !ChildOk(children[i]))
  {
    var keys := CheckKeys(data, 0);
    if keys.Some? then keys
    else if exists i | 0 <= i < |children| :: !ChildOk(children[i]) then Some(BadChild)
    else None
  }

  /** `Node(parent, children, **data)`: the call binds its arguments, then
      the constructor runs `check`. */
  function NewNode(parent: Option<Node>, children: seq<Child>, data: map<string, Value>): (r: Result<Node, NodeError>)
    ensures r.Success? ==> r.value.parent == parent && r.value.children == children && r.value.data == data
    ensures r.Success? <==> !Clashes(data) && Check(children, data).None?
    ensures Clashes(data) ==> r == Failure(Clash)
    ensures !Clashes(data) && Check(children, data).Some? ==> r == Failure(Check(children, data).value)
  {
    if Clashes(data) then Failure(Clash)
    else match Check(children, data)
      case Some(e) => Failure(e)
      case None => Success(Node(parent, children, data))
  }

  /** Adding a keyword named like a parameter makes any call fail, whatever
      the other arguments. */
  lemma ClashingKeyRaises(parent: Option<Node>, children: seq<Child>, data: map<string, Value>, key: string, v: Value)
    requires key == "self" || key == "parent" || key == "children"
    ensures NewNode(parent, children, data[key := v]) == Failure(Clash)
  {
    assert key in data[key := v];
  }

  /** A missing required key raises `KeyError` for that key, provided the
      keys checked before it are in order. */
  lemma MissingKeyRaises(parent: Option<Node>, children: seq<Child>, data: map<string, Value>, k: nat)
    requires !Clashes(data)
    requires k < |Required| && Required[k].0 !in data
    requires forall j | 0 <= j < k :: Holds(data, j)
    ensures NewNode(parent, children, data) == Failure(MissingKey(Required[k].0))
  {
    CheckKeysAt(data, k);
  }

  /** A required key present with any other type raises `TypeError`, even
      when the value is a subclass of the required type. */
  lemma WrongTypeRaises(parent: Option<Node>, children: seq<Child>, data: map<string, Value>, k: nat)
    requires !Clashes(data)
    requires k < |Required| && Required[k].0 in data && TypeOf(data[Required[k].0]) != Required[k].1
    requires forall j | 0 <= j < k :: Holds(data, j)
    ensures NewNode(parent, children, data) == Failure(WrongType(Required[k].0))
  {
    CheckKeysAt(data, k);
  }

  /** The checks before `k` pass, so checking from 0 is checking from `k`. */
  lemma {:induction false} CheckKeysSkip(data: map<string, Value>, i: nat, k: nat)
    requires i <= k <= |Required|
    requires forall j | i <= j < k :: Holds(data, j)
    ensures CheckKeys(data, i) == CheckKeys(data, k)
    decreases k - i
  {
    if i < k {
      assert Holds(data, i);
      CheckKeysSkip(data, i + 1, k);
    }
  }

  lemma CheckKeysAt(data: map<string, Value>, k: nat)
    requires k < |Required|
    requires forall j | 0 <= j < k :: Holds(data, j)
    ensures CheckKeys(data, 0) == CheckKeys(data, k)
  {
    CheckKeysSkip(data, 0, k);
  }

  /** Apart from the three required keys and the parameters' names, keys do
      not matter: any other key, of any value, leaves the outcome unchanged. */
  lemma ExtraKeysAccepted(parent: Option<Node>, children: seq<Child>, data: map<string, Value>, key: string, v: Value)
    requires forall k | 0 <= k < |Required| :: Required[k].0 != key
    requires key != "self" && key != "parent" && key != "children"
    ensures NewNode(parent, children, data[key := v]).Success? == NewNode(parent, children, data).Success?
  {
    var d2 := data[key := v];
    forall k | 0 <= k < |Required|
      ensures Holds(d2, k) == Holds(data, k)
    {
      assert Required[k].0 != key;
    }
  }
}
