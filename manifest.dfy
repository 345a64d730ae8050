/**
 * The manifest of a dbt project and the construction of its dependency graph.
 *
 * The raw manifest lists every node once and gives the lineage separately, as two
 * global edge lists keyed by node id (`child_map`, `parent_map`). Building the graph
 * folds those lists into per-node id sets; nothing else about a node changes.
 */
module Manifest {

  /** One vertex of the project graph (a model, a source, or anything else the manifest lists).
      `childMap` and `parentMap` are the node's own child and parent id sets; they are derived
      from the global edge lists when the graph is built. The `columns` of a node are not part
      of this model: no rule reads them. */
  datatype Node = Node(
    name: string,
    resourceType: string,
    fqn: seq<string>,
    refs: seq<seq<string>>,
    sources: seq<seq<string>>,
    childMap: set<string>,
    parentMap: set<string>)

  /** The manifest as it comes out of JSON decoding. `nodes` is the node mapping, listed in the
      (unspecified) order in which it is iterated; its ids are distinct because it is a map. */
  datatype RawManifest = RawManifest(
    nodes: seq<(string, Node)>,
    parentMap: map<string, seq<string>>,
    childMap: map<string, seq<string>>)

  /** The ids of a node listing are pairwise distinct, as the keys of a map are. */
  predicate DistinctKeys(nodes: seq<(string, Node)>)
  {
    forall i, j :: 0 <= i < j < |nodes| ==> nodes[i].0 != nodes[j].0
  }

  /** The set of ids of a node listing. */
  function KeySet(nodes: seq<(string, Node)>): (r: set<string>)
    ensures forall k :: k in r <==> exists i :: 0 <= i < |nodes| && nodes[i].0 == k
  {
    set i | 0 <= i < |nodes| :: nodes[i].0
  }

  /** The ids an edge list gives for `key`: every id listed under `key`, duplicates collapsed,
      and none at all when `key` has no entry. The ids are not checked against the node ids. */
  function Listed(edges: map<string, seq<string>>, key: string): (r: set<string>)
    ensures forall id :: id in r <==> key in edges && id in edges[key]
  {
    if key in edges then set id | id in edges[key] else {}
  }

  /** No id is listed twice in `ids`. */
  predicate NoRepeats(ids: seq<string>)
  {
    forall i, j :: 0 <= i < j < |ids| ==> ids[i] != ids[j]
  }

  /** A node never gets more ids than its edge list has entries, and gets exactly as many
      when the entry lists no id twice: repeated ids collapse into one. */
  lemma ListedSize(edges: map<string, seq<string>>, key: string)
    requires key in edges
    ensures |Listed(edges, key)| <= |edges[key]|
    ensures |Listed(edges, key)| == |edges[key]| <==> NoRepeats(edges[key])
  {
    assert Listed(edges, key) == Elements(edges[key]);
    ElementsSize(edges[key]);
  }

  /** The ids of `ids` as a set. */
  function Elements(ids: seq<string>): (r: set<string>)
    ensures forall id :: id in r <==> id in ids
  {
    set id | id in ids
  }

  lemma {:induction false} ElementsSize(ids: seq<string>)
    ensures |Elements(ids)| <= |ids|
    ensures |Elements(ids)| == |ids| <==> NoRepeats(ids)
  {
    if ids != [] {
      var init, last := ids[..|ids| - 1], ids[|ids| - 1];
      assert ids == init + [last];
      ElementsSize(init);
      assert Elements(ids) == Elements(init) + {last};
      if last in init {
        assert Elements(ids) == Elements(init);
        var k :| 0 <= k < |init| && init[k] == last;
        assert ids[k] == ids[|ids| - 1];
      } else {
        assert |Elements(ids)| == |Elements(init)| + 1;
        if NoRepeats(init) {
          forall i, j | 0 <= i < j < |ids| ensures ids[i] != ids[j] {
            if j < |ids| - 1 {
              assert ids[i] == init[i] && ids[j] == init[j];
            } else {
              assert ids[i] in init;
            }
          }
        }
        if NoRepeats(ids) {
          forall i, j | 0 <= i < j < |init| ensures init[i] != init[j] {
            assert ids[i] == init[i] && ids[j] == init[j];
          }
        }
      }
    }
  }

  /** `node` carries the same authored fields as `original`; only the derived id sets may differ. */
  predicate SameAttributes(node: Node, original: Node)
  {
    && node.name == original.name
    && node.resourceType == original.resourceType
    && node.fqn == original.fqn
    && node.refs == original.refs
    && node.sources == original.sources
  }

  /** `graph` holds the `i`-th raw node under its id, with its id sets taken from the edge lists. */
  predicate Resolved(graph: map<string, Node>, raw: RawManifest, i: int)
    requires 0 <= i < |raw.nodes|
  {
    var (key, original) := raw.nodes[i];
    && key in graph
    && SameAttributes(graph[key], original)
    && graph[key].childMap == Listed(raw.childMap, key)
    && graph[key].parentMap == Listed(raw.parentMap, key)
  }

  /** Builds the node graph of a decoded manifest: for every node, reset both id sets, insert
      each id the global child list gives for the node's id, then each id the parent list gives,
      and store the node under its id in a fresh map. */
  method FromRaw(raw: RawManifest) returns (graph: map<string, Node>)
    requires DistinctKeys(raw.nodes)
    ensures graph.Keys == KeySet(raw.nodes)
    ensures forall i :: 0 <= i < |raw.nodes| ==> Resolved(graph, raw, i)
  {
    graph := map[];
    var i := 0;
    while i < |raw.nodes|
      invariant 0 <= i <= |raw.nodes|
      invariant graph.Keys == KeySet(raw.nodes[..i])
      invariant forall m :: 0 <= m < i ==> Resolved(graph, raw, m)
    {
      var (key, node) := raw.nodes[i];
      node := node.(childMap := {}, parentMap := {});
      if key in raw.childMap {
        var leafs := raw.childMap[key];
        var j := 0;
        while j < |leafs|
          invariant 0 <= j <= |leafs|
          invariant SameAttributes(node, raw.nodes[i].1) && node.parentMap == {}
          invariant node.childMap == set id | id in leafs[..j]
        {
          node := node.(childMap := node.childMap + {leafs[j]});
          j := j + 1;
        }
        assert leafs[..j] == leafs;
      }
      if key in raw.parentMap {
        var leafs := raw.parentMap[key];
        var j := 0;
        while j < |leafs|
          invariant 0 <= j <= |leafs|
          invariant SameAttributes(node, raw.nodes[i].1) && node.childMap == Listed(raw.childMap, key)
          invariant node.parentMap == set id | id in leafs[..j]
        {
          node := node.(parentMap := node.parentMap + {leafs[j]});
          j := j + 1;
        }
        assert leafs[..j] == leafs;
      }
      assert node.childMap == Listed(raw.childMap, key);
      assert node.parentMap == Listed(raw.parentMap, key);
      ghost var before := graph;
      graph := graph[key := node];
      forall m | 0 <= m < i
        ensures Resolved(graph, raw, m)
      {
        assert raw.nodes[m].0 != key;
        assert Resolved(before, raw, m);
      }
      assert raw.nodes[..i + 1] == raw.nodes[..i] + [raw.nodes[i]];
      i := i + 1;
    }
    assert raw.nodes[..i] == raw.nodes;
  }

  /** A manifest with N distinct node ids yields a graph of exactly N nodes. */
  lemma {:induction false} KeyCount(nodes: seq<(string, Node)>)
    requires DistinctKeys(nodes)
    ensures |KeySet(nodes)| == |nodes|
  {
    if nodes != [] {
      var init := nodes[..|nodes| - 1];
      KeyCount(init);
      assert KeySet(nodes) == KeySet(init) + {nodes[|nodes| - 1].0};
      assert nodes[|nodes| - 1].0 !in KeySet(init);
    }
  }
}
