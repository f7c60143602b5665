/**
  The YAML loader used on partially rendered check templates
  (`RemappingLoader.construct_mapping`): a mapping key whose constructed
  value is not hashable, as happens when a bare `{{ name }}` replacement
  field is read as a flow mapping, is replaced by the string
  `"{{ name }}"` (with its double quotes) built from the first key inside it.
 */
module RemappingLoader {
  import opened Wrappers
  import opened PyDict

  /** A node of the YAML representation tree. */
  datatype Node =
    | ScalarNode(value: string)
    | SequenceNode(items: seq<Node>)
    | MappingNode(pairs: seq<(Node, Node)>)

  /** A constructed Python object: a string, a list or a dict. */
  datatype Value =
    | Str(text: string)
    | List(items: seq<Value>)
    | Map(entries: Dict<Value>)

  datatype Error =
    | NotAMapping     // construct_mapping called on another kind of node
    | KeyIndexError   // `key_node.value[0]` on an empty collection
    | KeyTypeError    // `key_node.value[0][0]` on a node of a sequence

  /** The string `'"{{ %s }}"' % name`. */
  function Placeholder(name: string): string {
    "\"{{ " + name + " }}\""
  }

  /**
    `'%s' % key_node.value[0][0].value` for a key node that did not construct
    to a hashable key; `valueText` gives `str` of a non-scalar node's value list.
   */
  function RecoveredKey(keyNode: Node, valueText: Node -> string): (r: Result<string, Error>)
    requires !keyNode.ScalarNode?
    ensures r.Success? <==> keyNode.MappingNode? && keyNode.pairs != []
    ensures r.Failure? ==> r.error == (if keyNode.SequenceNode? && keyNode.items != [] then KeyTypeError else KeyIndexError)
    ensures r.Success? ==> Some(r.value) == KeyName(keyNode, valueText)
  {
    match keyNode
    case SequenceNode(items) =>
      if items == [] then Failure(KeyIndexError) else Failure(KeyTypeError)
    case MappingNode(pairs) =>
      if pairs == [] then Failure(KeyIndexError)
      else
        var first := pairs[0].0;
        Success(Placeholder(if first.ScalarNode? then first.value else valueText(first)))
  }

  /** `construct_object`: scalars become strings, sequences lists, mappings dicts. */
  function Construct(n: Node, valueText: Node -> string): Result<Value, Error>
    decreases n, 2
  {
    match n
    case ScalarNode(v) => Success(Str(v))
    case SequenceNode(_) => ItemsFrom(n, 0, [], valueText)
    case MappingNode(_) => MappingOf(n, valueText)
  }

  function ItemsFrom(n: Node, i: nat, acc: seq<Value>, valueText: Node -> string): (r: Result<Value, Error>)
    requires n.SequenceNode? && i <= |n.items|
    ensures r.Success? ==> r.value.List?
    decreases n, 0, |n.items| - i
  {
    if i == |n.items| then Success(List(acc))
    else
      assert n.items[i] in n.items;
      match Construct(n.items[i], valueText)
      case Failure(e) => Failure(e)
      case Success(v) => ItemsFrom(n, i + 1, acc + [v], valueText)
  }

  /** The mapping `construct_mapping` returns for `n`, or the error it raises. */
  function MappingOf(n: Node, valueText: Node -> string): (r: Result<Value, Error>)
    ensures r.Success? ==> r.value.Map?
    decreases n, 1
  {
    if n.MappingNode? then PairsFrom(n, 0, [], valueText) else Failure(NotAMapping)
  }

  /** The loop of construct_mapping from pair `i` on, with `acc` built so far. */
  function PairsFrom(n: Node, i: nat, acc: Dict<Value>, valueText: Node -> string): (r: Result<Value, Error>)
    requires n.MappingNode? && i <= |n.pairs|
    ensures r.Success? ==> r.value.Map?
    decreases n, 0, |n.pairs| - i
  {
    if i == |n.pairs| then Success(Map(acc))
    else
      assert n.pairs[i] in n.pairs;
      var keyNode, valueNode := n.pairs[i].0, n.pairs[i].1;
      match Construct(keyNode, valueText)
      case Failure(e) => Failure(e)
      case Success(key) =>
        match KeyFor(keyNode, key, valueText)
        case Failure(e) => Failure(e)
        case Success(k) =>
          match Construct(valueNode, valueText)
          case Failure(e) => Failure(e)
          case Success(v) => PairsFrom(n, i + 1, Assign(acc, k, v), valueText)
  }

  /** The dict key for a constructed key: itself when hashable (a string), else the recovered one. */
  function KeyFor(keyNode: Node, key: Value, valueText: Node -> string): Result<string, Error>
    requires key.Str? || !keyNode.ScalarNode?
  {
    if key.Str? then Success(key.text) else RecoveredKey(keyNode, valueText)
  }

  /** `RemappingLoader.construct_mapping(node)`. */
  method ConstructMapping(node: Node, valueText: Node -> string) returns (r: Result<Value, Error>)
    ensures r == MappingOf(node, valueText)
  {
    if !node.MappingNode? {
      return Failure(NotAMapping);
    }
    var mapping: Dict<Value> := [];
    var i := 0;
    while i < |node.pairs|
      invariant i <= |node.pairs|
      invariant PairsFrom(node, i, mapping, valueText) == MappingOf(node, valueText)
    {
      var keyNode, valueNode := node.pairs[i].0, node.pairs[i].1;
      var key := Construct(keyNode, valueText);
      if key.Failure? {
        return Failure(key.error);
      }
      var k := DictKey(keyNode, key.value, valueText);
      if k.Failure? {
        return Failure(k.error);
      }
      var value := Construct(valueNode, valueText);
      if value.Failure? {
        return Failure(value.error);
      }
      mapping := Assign(mapping, k.value, value.value);
      i := i + 1;
    }
    return Success(Map(mapping));
  }

  /** The key to store under: the constructed key when hashable, else the key rebuilt from the node. */
  method DictKey(keyNode: Node, key: Value, valueText: Node -> string) returns (r: Result<string, Error>)
    requires key.Str? || !keyNode.ScalarNode?
    ensures r == KeyFor(keyNode, key, valueText)
  {
    if key.Str? {
      return Success(key.text);
    }
    r := RecoveredKey(keyNode, valueText);
  }

  // ---------------------------------------------------------------------------
  // Which keys a constructed mapping has
  // ---------------------------------------------------------------------------

  /**
    The key a key node stands for: a scalar's own text, or the placeholder for
    the first key inside a non-empty mapping; a sequence or an empty mapping
    stands for no key.
   */
  function KeyName(keyNode: Node, valueText: Node -> string): Option<string> {
    match keyNode
    case ScalarNode(v) => Some(v)
    case SequenceNode(_) => None
    case MappingNode(pairs) =>
      if pairs == [] then None
      else
        var first := pairs[0].0;
        Some(Placeholder(if first.ScalarNode? then first.value else valueText(first)))
  }

  /**
    For a key node that constructs, the key the loop stores under is the key
    the node stands for, and the loop fails on that key exactly when the node
    stands for none.
   */
  lemma KeyForIsKeyName(keyNode: Node, valueText: Node -> string)
    requires Construct(keyNode, valueText).Success?
    ensures var key := Construct(keyNode, valueText).value;
      && (key.Str? <==> keyNode.ScalarNode?)
      && (KeyFor(keyNode, key, valueText).Success? <==> KeyName(keyNode, valueText).Some?)
      && (KeyFor(keyNode, key, valueText).Success? ==> Some(KeyFor(keyNode, key, valueText).value) == KeyName(keyNode, valueText))
  {
  }

  /** Pair `j` is the last pair of `n` whose key node stands for its key. */
  predicate LastWithKey(n: Node, j: nat, valueText: Node -> string)
    requires n.MappingNode? && j < |n.pairs|
  {
    forall j' :: j < j' < |n.pairs| ==> KeyName(n.pairs[j'].0, valueText) != KeyName(n.pairs[j].0, valueText)
  }

  /** One successful step of the construct_mapping loop assigns pair `i`'s value under the key its key node stands for. */
  lemma PairsFromStep(n: Node, i: nat, acc: Dict<Value>, valueText: Node -> string) returns (k: string, v: Value)
    requires n.MappingNode? && i < |n.pairs|
    requires PairsFrom(n, i, acc, valueText).Success?
    ensures KeyName(n.pairs[i].0, valueText) == Some(k)
    ensures Construct(n.pairs[i].1, valueText) == Success(v)
    ensures PairsFrom(n, i, acc, valueText) == PairsFrom(n, i + 1, Assign(acc, k, v), valueText)
  {
    var keyNode, valueNode := n.pairs[i].0, n.pairs[i].1;
    var key := Construct(keyNode, valueText).value;
    k := KeyFor(keyNode, key, valueText).value;
    v := Construct(valueNode, valueText).value;
  }

  /** The key/value pairs assigned in order, as the construct_mapping loop assigns them. */
  function AssignAll(acc: Dict<Value>, kvs: seq<(string, Value)>): Dict<Value>
    decreases |kvs|
  {
    if kvs == [] then acc else AssignAll(Assign(acc, kvs[0].0, kvs[0].1), kvs[1..])
  }

  /** `kvs` lists, for each pair from `i` on, the key its key node stands for and the value its value node constructs to. */
  ghost predicate Constructed(n: Node, i: nat, valueText: Node -> string, kvs: seq<(string, Value)>)
    requires n.MappingNode? && i <= |n.pairs|
  {
    && |kvs| == |n.pairs| - i
    && forall j :: 0 <= j < |kvs| ==>
         KeyName(n.pairs[i + j].0, valueText) == Some(kvs[j].0) && Construct(n.pairs[i + j].1, valueText) == Success(kvs[j].1)
  }

  lemma ConstructedCons(n: Node, i: nat, valueText: Node -> string, k: string, v: Value, rest: seq<(string, Value)>)
    requires n.MappingNode? && i < |n.pairs|
    requires KeyName(n.pairs[i].0, valueText) == Some(k) && Construct(n.pairs[i].1, valueText) == Success(v)
    requires Constructed(n, i + 1, valueText, rest)
    ensures Constructed(n, i, valueText, [(k, v)] + rest)
  {
    var kvs := [(k, v)] + rest;
    forall j | 0 < j < |kvs|
      ensures KeyName(n.pairs[i + j].0, valueText) == Some(kvs[j].0) && Construct(n.pairs[i + j].1, valueText) == Success(kvs[j].1)
    {
      assert kvs[j] == rest[j - 1] && i + j == (i + 1) + (j - 1);
    }
  }

  /** A successful loop from pair `i` on assigns, in order, the keys and values the pairs construct to. */
  lemma {:induction false} PairsFromTrace(n: Node, i: nat, acc: Dict<Value>, valueText: Node -> string, d: Dict<Value>)
    returns (kvs: seq<(string, Value)>)
    requires n.MappingNode? && i <= |n.pairs|
    requires PairsFrom(n, i, acc, valueText) == Success(Map(d))
    ensures Constructed(n, i, valueText, kvs) && d == AssignAll(acc, kvs)
    decreases |n.pairs| - i
  {
    if i == |n.pairs| {
      assert Map(acc) == Map(d);
      kvs := [];
    } else {
      var k, v := PairsFromStep(n, i, acc, valueText);
      var rest := PairsFromTrace(n, i + 1, Assign(acc, k, v), valueText, d);
      kvs := [(k, v)] + rest;
      ConstructedCons(n, i, valueText, k, v, rest);
      assert kvs[1..] == rest;
    }
  }

  /** The keys after assigning: those there before and those assigned. */
  lemma {:induction false} AssignAllKeys(acc: Dict<Value>, kvs: seq<(string, Value)>)
    ensures forall k :: k in Keys(AssignAll(acc, kvs)) <==> k in Keys(acc) || exists j :: 0 <= j < |kvs| && kvs[j].0 == k
    decreases |kvs|
  {
    if kvs != [] {
      var acc' := Assign(acc, kvs[0].0, kvs[0].1);
      AssignAllKeys(acc', kvs[1..]);
      forall k ensures k in Keys(AssignAll(acc, kvs)) <==> k in Keys(acc) || exists j :: 0 <= j < |kvs| && kvs[j].0 == k {
        if exists j :: 0 <= j < |kvs[1..]| && kvs[1..][j].0 == k {
          var j :| 0 <= j < |kvs[1..]| && kvs[1..][j].0 == k;
          assert kvs[j + 1].0 == k;
        }
        if exists j :: 0 <= j < |kvs| && kvs[j].0 == k {
          var j :| 0 <= j < |kvs| && kvs[j].0 == k;
          if j > 0 {
            assert kvs[1..][j - 1].0 == k;
          }
        }
      }
    }
  }

  /** A key assigned nowhere keeps its value. */
  lemma {:induction false} AssignAllUntouched(acc: Dict<Value>, kvs: seq<(string, Value)>, k: string)
    requires k in Keys(acc) && forall j :: 0 <= j < |kvs| ==> kvs[j].0 != k
    ensures k in Keys(AssignAll(acc, kvs)) && Get(AssignAll(acc, kvs), k) == Get(acc, k)
    decreases |kvs|
  {
    if kvs != [] {
      AssignAllUntouched(Assign(acc, kvs[0].0, kvs[0].1), kvs[1..], k);
    }
  }

  /** No later pair assigns the key of pair `j`. */
  predicate LastAssigned(kvs: seq<(string, Value)>, j: nat)
    requires j < |kvs|
  {
    forall j' :: j < j' < |kvs| ==> kvs[j'].0 != kvs[j].0
  }

  /** A key holds the value of the last pair that assigns it. */
  lemma {:induction false} AssignAllValues(acc: Dict<Value>, kvs: seq<(string, Value)>)
    ensures forall j :: 0 <= j < |kvs| && LastAssigned(kvs, j) ==>
      kvs[j].0 in Keys(AssignAll(acc, kvs)) && Get(AssignAll(acc, kvs), kvs[j].0) == kvs[j].1
    decreases |kvs|
  {
    if kvs != [] {
      var acc' := Assign(acc, kvs[0].0, kvs[0].1);
      AssignAllValues(acc', kvs[1..]);
      forall j | 0 <= j < |kvs| && LastAssigned(kvs, j)
        ensures kvs[j].0 in Keys(AssignAll(acc, kvs)) && Get(AssignAll(acc, kvs), kvs[j].0) == kvs[j].1
      {
        if j == 0 {
          forall j' | 0 <= j' < |kvs[1..]| ensures kvs[1..][j'].0 != kvs[0].0 {
            assert kvs[1..][j'] == kvs[j' + 1];
          }
          AssignAllUntouched(acc', kvs[1..], kvs[0].0);
        } else {
          assert kvs[j] == kvs[1..][j - 1];
          assert LastAssigned(kvs[1..], j - 1);
        }
      }
    }
  }

  /**
    A constructed mapping has exactly the keys its key nodes stand for (so
    construction fails when a key node is a sequence or an empty mapping),
    and each key holds the value of the last pair that names it.
   */
  lemma MappingKeys(n: Node, valueText: Node -> string, d: Dict<Value>)
    requires MappingOf(n, valueText) == Success(Map(d))
    ensures n.MappingNode?
    ensures forall j :: 0 <= j < |n.pairs| ==>
      KeyName(n.pairs[j].0, valueText).Some? && KeyName(n.pairs[j].0, valueText).value in Keys(d)
    ensures forall k :: k in Keys(d) ==> exists j :: 0 <= j < |n.pairs| && KeyName(n.pairs[j].0, valueText) == Some(k)
    ensures forall j :: 0 <= j < |n.pairs| && LastWithKey(n, j, valueText) ==>
      Construct(n.pairs[j].1, valueText) == Success(Get(d, KeyName(n.pairs[j].0, valueText).value))
  {
    var kvs := PairsFromTrace(n, 0, [], valueText, d);
    AssignAllKeys([], kvs);
    AssignAllValues([], kvs);
    assert forall j :: 0 <= j < |kvs| ==> n.pairs[0 + j] == n.pairs[j];
    forall j | 0 <= j < |n.pairs|
      ensures KeyName(n.pairs[j].0, valueText).Some? && KeyName(n.pairs[j].0, valueText).value in Keys(d)
    {
      assert KeyName(n.pairs[0 + j].0, valueText) == Some(kvs[j].0);
    }
    forall k | k in Keys(d) ensures exists j :: 0 <= j < |n.pairs| && KeyName(n.pairs[j].0, valueText) == Some(k) {
      var j :| 0 <= j < |kvs| && kvs[j].0 == k;
      assert KeyName(n.pairs[0 + j].0, valueText) == Some(kvs[j].0);
    }
    forall j | 0 <= j < |n.pairs| && LastWithKey(n, j, valueText)
      ensures Construct(n.pairs[j].1, valueText) == Success(Get(d, KeyName(n.pairs[j].0, valueText).value))
    {
      assert KeyName(n.pairs[0 + j].0, valueText) == Some(kvs[j].0);
      forall j' | j < j' < |kvs| ensures kvs[j'].0 != kvs[j].0 {
        assert KeyName(n.pairs[0 + j'].0, valueText) == Some(kvs[j'].0);
      }
      assert LastAssigned(kvs, j);
    }
  }

  /** Only a mapping node can be constructed as a mapping. */
  lemma NotAMappingFails(n: Node, valueText: Node -> string)
    ensures MappingOf(n, valueText) == Failure(NotAMapping) <==> !n.MappingNode?
  {
    if n.MappingNode? {
      PairsFromNotAMapping(n, 0, [], valueText);
    }
  }

  lemma {:induction false} PairsFromNotAMapping(n: Node, i: nat, acc: Dict<Value>, valueText: Node -> string)
    requires n.MappingNode? && i <= |n.pairs|
    ensures PairsFrom(n, i, acc, valueText) != Failure(NotAMapping)
    decreases n, 0, |n.pairs| - i
  {
    if i < |n.pairs| {
      assert n.pairs[i] in n.pairs;
      var keyNode, valueNode := n.pairs[i].0, n.pairs[i].1;
      ConstructNotAMapping(keyNode, valueText);
      ConstructNotAMapping(valueNode, valueText);
      match Construct(keyNode, valueText)
      case Failure(_) =>
      case Success(key) =>
        match KeyFor(keyNode, key, valueText)
        case Failure(_) =>
        case Success(k) =>
          match Construct(valueNode, valueText)
          case Failure(_) =>
          case Success(v) => PairsFromNotAMapping(n, i + 1, Assign(acc, k, v), valueText);
    }
  }

  lemma {:induction false} ItemsFromNotAMapping(n: Node, i: nat, acc: seq<Value>, valueText: Node -> string)
    requires n.SequenceNode? && i <= |n.items|
    ensures ItemsFrom(n, i, acc, valueText) != Failure(NotAMapping)
    decreases n, 0, |n.items| - i
  {
    if i < |n.items| {
      assert n.items[i] in n.items;
      ConstructNotAMapping(n.items[i], valueText);
      match Construct(n.items[i], valueText)
      case Failure(_) =>
      case Success(v) => ItemsFromNotAMapping(n, i + 1, acc + [v], valueText);
    }
  }

  /** Construction through `construct_object` never calls construct_mapping on a non-mapping node. */
  lemma {:induction false} ConstructNotAMapping(n: Node, valueText: Node -> string)
    ensures Construct(n, valueText) != Failure(NotAMapping)
    decreases n, 1
  {
    match n
    case ScalarNode(_) =>
    case SequenceNode(_) => ItemsFromNotAMapping(n, 0, [], valueText);
    case MappingNode(_) => PairsFromNotAMapping(n, 0, [], valueText);
  }

  /**
    `{{ name }}` unquoted is read as a mapping whose one key is the mapping
    `{name: null}`; it constructs to a dict whose one key is `"{{ name }}"`,
    quotes included.
   */
  lemma BareReplacementField(name: string, valueText: Node -> string)
    ensures Construct(MappingNode([(MappingNode([(ScalarNode(name), ScalarNode(""))]), ScalarNode(""))]), valueText) ==
      Success(Map([(Placeholder(name), Str(""))]))
  {
    var inner := MappingNode([(ScalarNode(name), ScalarNode(""))]);
    var outer := MappingNode([(inner, ScalarNode(""))]);
    assert Assign([], name, Str("")) == [(name, Str(""))];
    assert PairsFrom(inner, 0, [], valueText) == PairsFrom(inner, 1, [(name, Str(""))], valueText);
    assert Construct(inner, valueText) == Success(Map([(name, Str(""))]));
    assert KeyFor(inner, Map([(name, Str(""))]), valueText) == Success(Placeholder(name));
    assert Assign([], Placeholder(name), Str("")) == [(Placeholder(name), Str(""))];
    assert PairsFrom(outer, 0, [], valueText) == PairsFrom(outer, 1, [(Placeholder(name), Str(""))], valueText);
  }
}
