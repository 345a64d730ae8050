/**
 * The rule engine: runs a selection of rules over every node of the graph and groups the
 * names of the violating nodes by rule description.
 *
 * The nodes of the graph are visited in the iteration order of its map, which is not
 * specified; it is a parameter here (`order`, the node ids in visiting order), and every
 * property below holds whatever that order is.
 */
module Validation {
  import opened Manifest
  import opened NodeTests

  /** The selected rules, in the order the caller gave them; a rule may appear more than once. */
  datatype ValidationContext = ValidationContext(nodeTests: seq<NodeTest>)

  /** `order` lists every id of `graph` exactly once. */
  predicate IsIterationOrder(order: seq<string>, graph: map<string, Node>)
  {
    && (forall i, j :: 0 <= i < j < |order| ==> order[i] != order[j])
    && (forall id :: id in graph ==> id in order)
    && (forall id :: id in order ==> id in graph)
  }

  /** The nodes of `graph` in the visiting order `order`. */
  function Values(graph: map<string, Node>, order: seq<string>): (r: seq<Node>)
    requires forall id :: id in order ==> id in graph
    ensures |r| == |order|
    ensures forall i :: 0 <= i < |order| ==> r[i] == graph[order[i]]
  {
    if order == [] then [] else [graph[order[0]]] + Values(graph, order[1..])
  }

  /** What one node adds to the bucket of `test`, going through the selection in order:
      its name once for every entry of `test` in the selection, when `test` flags it. */
  function Hits(tests: seq<NodeTest>, node: Node, test: NodeTest): seq<string>
  {
    if tests == [] then []
    else
      Hits(tests[..|tests| - 1], node, test) +
        (if tests[|tests| - 1] == test && IsInvalid(test, node) then [node.name] else [])
  }

  /** The bucket of `test` after visiting `nodes` in order: each node's hits, concatenated. */
  function Bucket(tests: seq<NodeTest>, nodes: seq<Node>, test: NodeTest): seq<string>
  {
    if nodes == [] then []
    else Bucket(tests, nodes[..|nodes| - 1], test) + Hits(tests, nodes[|nodes| - 1], test)
  }

  /** The non-empty buckets of the selected rules after visiting `nodes`. */
  function ByRule(tests: seq<NodeTest>, nodes: seq<Node>): map<NodeTest, seq<string>>
  {
    map t | t in tests && Bucket(tests, nodes, t) != [] :: Bucket(tests, nodes, t)
  }

  /** A per-rule map keyed by rule description instead. */
  function Keyed(m: map<NodeTest, seq<string>>): map<string, seq<string>>
  {
    KeyedOver(AllRules, m, Description)
  }

  /** `key` sends distinct rules to distinct strings. */
  predicate Injective(key: NodeTest -> string)
  {
    forall a, b :: key(a) == key(b) ==> a == b
  }

  lemma DescriptionIsInjective()
    ensures Injective(Description)
  {
    forall a, b
      ensures Description(a) == Description(b) ==> a == b
    {
      DescriptionInjective(a, b);
    }
  }

  /** The entries of `m` for the rules in `rules`, keyed by `key`. */
  function KeyedOver(rules: seq<NodeTest>, m: map<NodeTest, seq<string>>, key: NodeTest -> string): map<string, seq<string>>
  {
    if rules == [] then map[]
    else
      var t := rules[|rules| - 1];
      var r := KeyedOver(rules[..|rules| - 1], m, key);
      if t in m then r[key(t) := m[t]] else r
  }

  /** Under an injective key, a rule's key is present exactly when the rule is listed and a
      key of `m`, and then it holds the rule's entry. */
  lemma {:induction false} KeyedOverLookup(rules: seq<NodeTest>, m: map<NodeTest, seq<string>>,
                                           key: NodeTest -> string, t: NodeTest)
    requires Injective(key)
    ensures key(t) in KeyedOver(rules, m, key) <==> t in rules && t in m
    ensures t in rules && t in m ==> KeyedOver(rules, m, key)[key(t)] == m[t]
  {
    if rules != [] {
      var init, last := rules[..|rules| - 1], rules[|rules| - 1];
      KeyedOverLookup(init, m, key, t);
      assert rules == init + [last];
    }
  }

  /** Every key present is the key of some rule of `m`. */
  lemma {:induction false} KeyedOverKeys(rules: seq<NodeTest>, m: map<NodeTest, seq<string>>,
                                         key: NodeTest -> string, d: string)
    requires d in KeyedOver(rules, m, key)
    ensures exists t :: t in m && key(t) == d
  {
    var init, last := rules[..|rules| - 1], rules[|rules| - 1];
    if !(last in m && key(last) == d) {
      KeyedOverKeys(init, m, key, d);
    }
  }

  /** Under an injective key, updating one rule's entry updates exactly that rule's key. */
  lemma {:induction false} KeyedOverUpdate(rules: seq<NodeTest>, m: map<NodeTest, seq<string>>,
                                           key: NodeTest -> string, t: NodeTest, v: seq<string>)
    requires Injective(key)
    ensures KeyedOver(rules, m[t := v], key) ==
      if t in rules then KeyedOver(rules, m, key)[key(t) := v] else KeyedOver(rules, m, key)
  {
    if rules != [] {
      var init, last := rules[..|rules| - 1], rules[|rules| - 1];
      KeyedOverUpdate(init, m, key, t, v);
      InitOrLastRule(rules, t);
      var k := KeyedOver(init, m, key);
      if last == t {
        if t in m {
          UpdateTwice(k, key(t), m[t], v);
        }
      } else if last in m && t in init {
        assert key(last) != key(t);
        UpdateCommute(k, key(t), v, key(last), m[last]);
      }
    }
  }

  lemma InitOrLastRule(rules: seq<NodeTest>, t: NodeTest)
    requires rules != []
    ensures t in rules <==> t in rules[..|rules| - 1] || t == rules[|rules| - 1]
  {
    assert rules == rules[..|rules| - 1] + [rules[|rules| - 1]];
  }

  lemma UpdateTwice(k: map<string, seq<string>>, d: string, x: seq<string>, y: seq<string>)
    ensures k[d := x][d := y] == k[d := y]
  {
  }

  lemma UpdateCommute(k: map<string, seq<string>>, a: string, x: seq<string>, b: string, y: seq<string>)
    requires a != b
    ensures k[a := x][b := y] == k[b := y][a := x]
  {
  }

  /** A rule's description is a key of the re-keyed map exactly when the rule is a key of the
      original, and then it holds the rule's entry. */
  lemma KeyedAt(m: map<NodeTest, seq<string>>, t: NodeTest)
    ensures Description(t) in Keyed(m) <==> t in m
    ensures t in m ==> Keyed(m)[Description(t)] == m[t]
  {
    DescriptionIsInjective();
    CatalogComplete(t);
    KeyedOverLookup(AllRules, m, Description, t);
  }

  /** Every key of the re-keyed map is the description of a rule of the original. */
  lemma KeyedKeys(m: map<NodeTest, seq<string>>, d: string)
    requires d in Keyed(m)
    ensures exists t :: t in m && Description(t) == d
  {
    KeyedOverKeys(AllRules, m, Description, d);
  }

  /** Re-keying commutes with an update, because descriptions are distinct. */
  lemma KeyedUpdate(m: map<NodeTest, seq<string>>, t: NodeTest, v: seq<string>)
    ensures Keyed(m[t := v]) == Keyed(m)[Description(t) := v]
  {
    CatalogComplete(t);
    DescriptionIsInjective();
    KeyedOverUpdate(AllRules, m, Description, t, v);
  }

  /** The report of a run: the bucket of every selected rule that flags some node, under the
      rule's description. */
  function Report(tests: seq<NodeTest>, nodes: seq<Node>): map<string, seq<string>>
  {
    Keyed(ByRule(tests, nodes))
  }

  /** What the bucket of `test` holds after visiting `visited`, then the first `j` selected
      rules on `node`. */
  ghost function Pending(tests: seq<NodeTest>, visited: seq<Node>, node: Node, j: int, test: NodeTest): seq<string>
    requires 0 <= j <= |tests|
  {
    Bucket(tests, visited, test) + Hits(tests[..j], node, test)
  }

  /** The non-empty buckets part-way through a run: after visiting `visited`, then the first
      `j` selected rules on `node`. */
  ghost function Partial(tests: seq<NodeTest>, visited: seq<Node>, node: Node, j: int): map<NodeTest, seq<string>>
    requires 0 <= j <= |tests|
  {
    map t | t in tests && Pending(tests, visited, node, j, t) != [] :: Pending(tests, visited, node, j, t)
  }

  /** Runs the selected rules over every node of `graph`, visiting nodes in `order` and, for
      each node, the rules in selection order; a rule that flags the node appends the node's
      name to the bucket of the rule's description, creating the bucket on its first hit. */
  method Check(context: ValidationContext, graph: map<string, Node>, order: seq<string>)
    returns (report: map<string, seq<string>>)
    requires IsIterationOrder(order, graph)
    ensures report == Report(context.nodeTests, Values(graph, order))
  {
    var tests := context.nodeTests;
    ghost var nodes := Values(graph, order);
    ghost var visited := [];
    report := map[];
    ReportNoNodes(tests);
    var i := 0;
    while i < |order|
      invariant 0 <= i <= |order|
      invariant visited == nodes[..i]
      invariant report == Report(tests, visited)
    {
      var node := graph[order[i]];
      report := CheckNode(tests, visited, node, report);
      ValuesPrefix(graph, order, i);
      visited := visited + [node];
      i := i + 1;
    }
    assert visited == nodes;
  }

  /** The inner loop of `Check`: runs the selected rules, in order, over one node, starting
      from the report of the nodes visited before it. */
  method CheckNode(tests: seq<NodeTest>, ghost visited: seq<Node>, node: Node, start: map<string, seq<string>>)
    returns (report: map<string, seq<string>>)
    requires start == Report(tests, visited)
    ensures report == Report(tests, visited + [node])
  {
    report := start;
    PartialStart(tests, visited, node);
    var j := 0;
    while j < |tests|
      invariant 0 <= j <= |tests|
      invariant report == Keyed(Partial(tests, visited, node, j))
    {
      var test := tests[j];
      if IsInvalid(test, node) {
        var key := Description(test);
        PartialHit(tests, visited, node, j);
        if key in report {
          report := report[key := report[key] + [node.name]];
        } else {
          report := report[key := [node.name]];
        }
      } else {
        PartialMiss(tests, visited, node, j);
      }
      j := j + 1;
    }
    PartialEnd(tests, visited, node);
  }

  lemma ValuesPrefix(graph: map<string, Node>, order: seq<string>, i: int)
    requires forall id :: id in order ==> id in graph
    requires 0 <= i < |order|
    ensures Values(graph, order)[..i + 1] == Values(graph, order)[..i] + [graph[order[i]]]
  {
  }

  /** Before any node is visited, the report is empty. */
  lemma ReportNoNodes(tests: seq<NodeTest>)
    ensures Report(tests, []) == map[]
  {
    assert ByRule(tests, []) == map[];
    forall d | d in Keyed(map[])
      ensures false
    {
      KeyedKeys(map[], d);
    }
  }

  /** Before a node's first rule, the partial buckets are those of the nodes visited so far. */
  lemma PartialStart(tests: seq<NodeTest>, visited: seq<Node>, node: Node)
    ensures Keyed(Partial(tests, visited, node, 0)) == Report(tests, visited)
  {
    assert tests[..0] == [];
    assert forall t :: Pending(tests, visited, node, 0, t) == Bucket(tests, visited, t);
    assert Partial(tests, visited, node, 0) == ByRule(tests, visited);
  }

  /** After a node's last rule, the partial buckets are those with that node visited. */
  lemma PartialEnd(tests: seq<NodeTest>, visited: seq<Node>, node: Node)
    ensures Keyed(Partial(tests, visited, node, |tests|)) == Report(tests, visited + [node])
  {
    assert tests[..|tests|] == tests;
    forall t
      ensures Bucket(tests, visited + [node], t) == Pending(tests, visited, node, |tests|, t)
    {
      assert (visited + [node])[..|visited|] == visited;
    }
    assert Partial(tests, visited, node, |tests|) == ByRule(tests, visited + [node]);
  }

  /** A rule that flags the node puts the node's name at the end of the rule's bucket,
      which is created if absent; no other bucket changes. */
  lemma PartialHit(tests: seq<NodeTest>, visited: seq<Node>, node: Node, j: int)
    requires 0 <= j < |tests|
    requires IsInvalid(tests[j], node)
    ensures var before := Keyed(Partial(tests, visited, node, j));
            var key := Description(tests[j]);
            Keyed(Partial(tests, visited, node, j + 1)) ==
              if key in before then before[key := before[key] + [node.name]] else before[key := [node.name]]
  {
    var test := tests[j];
    forall t
      ensures Pending(tests, visited, node, j + 1, t) ==
        Pending(tests, visited, node, j, t) + (if test == t then [node.name] else [])
    {
      HitsStep(tests, j, node, t);
    }
    var pm := Partial(tests, visited, node, j);
    var grown := if test in pm then pm[test] + [node.name] else [node.name];
    PartialFlagged(tests, visited, node, j);
    KeyedAt(pm, test);
    KeyedUpdate(pm, test, grown);
  }

  /** A rule that does not flag the node changes nothing. */
  lemma PartialMiss(tests: seq<NodeTest>, visited: seq<Node>, node: Node, j: int)
    requires 0 <= j < |tests|
    requires !IsInvalid(tests[j], node)
    ensures Keyed(Partial(tests, visited, node, j + 1)) == Keyed(Partial(tests, visited, node, j))
  {
    forall t
      ensures Pending(tests, visited, node, j + 1, t) == Pending(tests, visited, node, j, t)
    {
      HitsStep(tests, j, node, t);
    }
    PartialUnflagged(tests, visited, node, j);
  }

  lemma PartialUnflagged(tests: seq<NodeTest>, visited: seq<Node>, node: Node, j: int)
    requires 0 <= j < |tests|
    requires forall t :: Pending(tests, visited, node, j + 1, t) == Pending(tests, visited, node, j, t)
    ensures Partial(tests, visited, node, j + 1) == Partial(tests, visited, node, j)
  {
  }

  lemma PartialFlagged(tests: seq<NodeTest>, visited: seq<Node>, node: Node, j: int)
    requires 0 <= j < |tests|
    requires forall t ::
               Pending(tests, visited, node, j + 1, t) ==
               Pending(tests, visited, node, j, t) + (if tests[j] == t then [node.name] else [])
    ensures var pm := Partial(tests, visited, node, j);
            Partial(tests, visited, node, j + 1) ==
              pm[tests[j] := if tests[j] in pm then pm[tests[j]] + [node.name] else [node.name]]
  {
    var pm := Partial(tests, visited, node, j);
    var test := tests[j];
    var expected := pm[test := if test in pm then pm[test] + [node.name] else [node.name]];
    var after := Partial(tests, visited, node, j + 1);
    forall t
      ensures t in after <==> t in expected
      ensures t in after ==> after[t] == expected[t]
    {
      if t == test && test !in pm {
        assert Pending(tests, visited, node, j, t) == [];
      }
    }
    assert after == expected;
  }

  /** Visiting one more rule extends a node's hits by that rule's contribution. */
  lemma HitsStep(tests: seq<NodeTest>, j: int, node: Node, test: NodeTest)
    requires 0 <= j < |tests|
    ensures Hits(tests[..j + 1], node, test) ==
      Hits(tests[..j], node, test) + (if tests[j] == test && IsInvalid(test, node) then [node.name] else [])
  {
    assert tests[..j + 1][..j] == tests[..j];
  }

  /** `n` copies of `x`. */
  function Repeat(x: string, n: nat): (r: seq<string>)
    ensures |r| == n
  {
    if n == 0 then [] else Repeat(x, n - 1) + [x]
  }

  lemma {:induction false} RepeatCount(x: string, n: nat, y: string)
    ensures multiset(Repeat(x, n))[y] == if x == y then n else 0
  {
    if n > 0 {
      RepeatCount(x, n - 1, y);
    }
  }

  /** Occurrences of `test` in a non-empty selection: those before the last entry, plus the last. */
  lemma CountLast(tests: seq<NodeTest>, test: NodeTest)
    requires tests != []
    ensures multiset(tests)[test] ==
      multiset(tests[..|tests| - 1])[test] + if tests[|tests| - 1] == test then 1 else 0
  {
    assert tests == tests[..|tests| - 1] + [tests[|tests| - 1]];
  }

  /** The hits of a node in a rule's bucket: its name once per occurrence of the rule in the
      selection when the rule flags it, and nothing otherwise. */
  lemma {:induction false} HitsOfRule(tests: seq<NodeTest>, node: Node, test: NodeTest)
    ensures Hits(tests, node, test) ==
      if IsInvalid(test, node) then Repeat(node.name, multiset(tests)[test]) else []
  {
    if tests != [] {
      var init := tests[..|tests| - 1];
      HitsOfRule(init, node, test);
      CountLast(tests, test);
    }
  }

  /** A bucket is non-empty exactly when some visited node has hits in it. */
  lemma {:induction false} BucketNonEmpty(tests: seq<NodeTest>, nodes: seq<Node>, test: NodeTest)
    ensures Bucket(tests, nodes, test) != [] <==> exists n :: n in nodes && Hits(tests, n, test) != []
  {
    if nodes != [] {
      var init, last := nodes[..|nodes| - 1], nodes[|nodes| - 1];
      BucketNonEmpty(tests, init, test);
      if exists n :: n in nodes && Hits(tests, n, test) != [] {
        var n :| n in nodes && Hits(tests, n, test) != [];
        InitOrLast(nodes, n);
      }
    }
  }

  lemma InitOrLast(nodes: seq<Node>, n: Node)
    requires n in nodes
    ensures n in nodes[..|nodes| - 1] || n == nodes[|nodes| - 1]
  {
    assert nodes == nodes[..|nodes| - 1] + [nodes[|nodes| - 1]];
  }

  /** The report holds a rule's description exactly when the rule is selected and flags some
      visited node, and then it holds that rule's own bucket: no two rules share a bucket. */
  lemma ReportBucket(tests: seq<NodeTest>, nodes: seq<Node>, test: NodeTest)
    ensures Description(test) in Report(tests, nodes) <==>
      test in tests && exists n :: n in nodes && IsInvalid(test, n)
    ensures Description(test) in Report(tests, nodes) ==>
      Report(tests, nodes)[Description(test)] == Bucket(tests, nodes, test)
  {
    KeyedAt(ByRule(tests, nodes), test);
    ByRuleAt(tests, nodes, test);
  }

  /** A rule has an entry in the per-rule buckets exactly when it is selected and flags some
      visited node, and the entry is its bucket. */
  lemma ByRuleAt(tests: seq<NodeTest>, nodes: seq<Node>, test: NodeTest)
    ensures test in ByRule(tests, nodes) <==> test in tests && exists n :: n in nodes && IsInvalid(test, n)
    ensures test in ByRule(tests, nodes) ==> ByRule(tests, nodes)[test] == Bucket(tests, nodes, test)
  {
    BucketNonEmpty(tests, nodes, test);
    forall n | n in nodes
      ensures Hits(tests, n, test) != [] <==> test in tests && IsInvalid(test, n)
    {
      HitsOfRule(tests, n, test);
      assert test in tests <==> multiset(tests)[test] > 0;
    }
  }

  /** The report's keys are exactly the descriptions of the selected rules that flag at least
      one visited node, and no bucket is empty. */
  lemma ReportKeys(tests: seq<NodeTest>, nodes: seq<Node>, d: string)
    ensures d in Report(tests, nodes) <==>
      exists t, n :: t in tests && n in nodes && IsInvalid(t, n) && Description(t) == d
    ensures d in Report(tests, nodes) ==> Report(tests, nodes)[d] != []
  {
    if d in Report(tests, nodes) {
      KeyedKeys(ByRule(tests, nodes), d);
      var t :| t in ByRule(tests, nodes) && Description(t) == d;
      ReportBucket(tests, nodes, t);
    }
    if exists t, n :: t in tests && n in nodes && IsInvalid(t, n) && Description(t) == d {
      var t, n :| t in tests && n in nodes && IsInvalid(t, n) && Description(t) == d;
      ReportBucket(tests, nodes, t);
    }
  }

  /** The bucket of the nodes `a` followed by the nodes `b` is `a`'s bucket followed by
      `b`'s: buckets list names in node visiting order. */
  lemma {:induction false} BucketConcat(tests: seq<NodeTest>, a: seq<Node>, b: seq<Node>, test: NodeTest)
    ensures Bucket(tests, a + b, test) == Bucket(tests, a, test) + Bucket(tests, b, test)
  {
    if b == [] {
      assert a + b == a;
    } else {
      var init := b[..|b| - 1];
      BucketConcat(tests, a, init, test);
      ConcatInit(a, b);
    }
  }

  lemma ConcatInit(a: seq<Node>, b: seq<Node>)
    requires b != []
    ensures (a + b)[..|a + b| - 1] == a + b[..|b| - 1]
    ensures (a + b)[|a + b| - 1] == b[|b| - 1]
  {
  }

  /** A node's hits only ever hold its own name. */
  lemma {:induction false} HitsNames(tests: seq<NodeTest>, node: Node, test: NodeTest)
    ensures forall x :: x in Hits(tests, node, test) ==> x == node.name
  {
    if tests != [] {
      HitsNames(tests[..|tests| - 1], node, test);
    }
  }

  /** Every name in a bucket belongs to a visited node with hits in that bucket. */
  lemma {:induction false} BucketMembers(tests: seq<NodeTest>, nodes: seq<Node>, test: NodeTest, x: string)
    requires x in Bucket(tests, nodes, test)
    ensures exists k :: 0 <= k < |nodes| && nodes[k].name == x && Hits(tests, nodes[k], test) != []
  {
    var init, last := nodes[..|nodes| - 1], nodes[|nodes| - 1];
    if x in Bucket(tests, init, test) {
      BucketMembers(tests, init, test, x);
      var k :| 0 <= k < |init| && init[k].name == x && Hits(tests, init[k], test) != [];
      assert nodes[k] == init[k];
    } else {
      HitsNames(tests, last, test);
    }
  }

  /** Every name in a rule's bucket is the name of a visited node that the rule flags, and
      the rule is selected. */
  lemma BucketOfRule(tests: seq<NodeTest>, nodes: seq<Node>, test: NodeTest, x: string)
    requires x in Bucket(tests, nodes, test)
    ensures test in tests
    ensures exists k :: 0 <= k < |nodes| && nodes[k].name == x && IsInvalid(test, nodes[k])
  {
    BucketMembers(tests, nodes, test, x);
    var k :| 0 <= k < |nodes| && nodes[k].name == x && Hits(tests, nodes[k], test) != [];
    HitsOfRule(tests, nodes[k], test);
    assert multiset(tests)[test] > 0;
  }

  /** Node names are pairwise distinct. */
  predicate DistinctNames(nodes: seq<Node>)
  {
    forall i, j :: 0 <= i < j < |nodes| ==> nodes[i].name != nodes[j].name
  }

  /** With distinct node names, a node's name appears in a rule's bucket once per entry of the
      rule in the selection if the rule flags the node, and not at all otherwise. */
  lemma {:induction false} NameMultiplicity(tests: seq<NodeTest>, nodes: seq<Node>, test: NodeTest, k: int)
    requires DistinctNames(nodes)
    requires 0 <= k < |nodes|
    ensures multiset(Bucket(tests, nodes, test))[nodes[k].name] ==
      if IsInvalid(test, nodes[k]) then multiset(tests)[test] else 0
  {
    var init := nodes[..|nodes| - 1];
    BucketLastCount(tests, nodes, test, nodes[k].name);
    if k == |nodes| - 1 {
      LastNameAbsent(tests, nodes, test);
    } else {
      DistinctInit(nodes, k);
      NameMultiplicity(tests, init, test, k);
    }
  }

  /** With distinct names, the last node's name does not occur in the bucket of the others. */
  lemma LastNameAbsent(tests: seq<NodeTest>, nodes: seq<Node>, test: NodeTest)
    requires DistinctNames(nodes)
    requires nodes != []
    ensures multiset(Bucket(tests, nodes[..|nodes| - 1], test))[nodes[|nodes| - 1].name] == 0
  {
    var init := nodes[..|nodes| - 1];
    forall m | 0 <= m < |init|
      ensures init[m].name != nodes[|nodes| - 1].name
    {
      assert init[m] == nodes[m];
    }
    NameAbsent(tests, init, test, nodes[|nodes| - 1].name);
  }

  lemma DistinctInit(nodes: seq<Node>, k: int)
    requires DistinctNames(nodes)
    requires 0 <= k < |nodes| - 1
    ensures DistinctNames(nodes[..|nodes| - 1])
    ensures nodes[..|nodes| - 1][k] == nodes[k]
    ensures nodes[|nodes| - 1].name != nodes[k].name
  {
  }

  /** The occurrences of `name` in a bucket: those from all nodes but the last, plus the last
      node's. */
  lemma BucketLastCount(tests: seq<NodeTest>, nodes: seq<Node>, test: NodeTest, name: string)
    requires nodes != []
    ensures var last := nodes[|nodes| - 1];
      multiset(Bucket(tests, nodes, test))[name] ==
        multiset(Bucket(tests, nodes[..|nodes| - 1], test))[name] +
        if IsInvalid(test, last) && last.name == name then multiset(tests)[test] else 0
  {
    var last := nodes[|nodes| - 1];
    HitsOfRule(tests, last, test);
    RepeatCount(last.name, multiset(tests)[test], name);
  }

  /** A name that no visited node has does not occur in a bucket. */
  lemma NameAbsent(tests: seq<NodeTest>, nodes: seq<Node>, test: NodeTest, name: string)
    requires forall m :: 0 <= m < |nodes| ==> nodes[m].name != name
    ensures multiset(Bucket(tests, nodes, test))[name] == 0
  {
    if name in Bucket(tests, nodes, test) {
      BucketMembers(tests, nodes, test, name);
    }
  }
}
