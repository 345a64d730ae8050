/**
 * The closed catalog of lint rules. Each rule is a total predicate on one node of the
 * graph (does this node violate the rule?) together with a fixed description, which is
 * the key of the rule's bucket in a report.
 */
module NodeTests {
  import opened Manifest

  datatype NodeTest =
    | DirectJoinSource
    | MartsOrIntermediateOnSource
    | HardCodedReferences
    | ModelFanOut
    | MultipleSourcesJoined
    | NoParents
    | StagingOnDownstream
    | SourceFanOut
    | StagingOnStaging
    | UnusedSources
    | NamingConventions
    | BadDirectory

  /** `s` starts with `prefix`, as a string prefix test. */
  predicate StartsWith(s: string, prefix: string)
  {
    prefix <= s
  }

  /** The ids in `ids` that start with `prefix`. */
  function WithPrefix(ids: set<string>, prefix: string): (r: set<string>)
    ensures r <= ids
    ensures forall id :: id in r <==> id in ids && StartsWith(id, prefix)
  {
    set id | id in ids && StartsWith(id, prefix)
  }

  /** Whether `node` violates `test`. Every rule but `SourceFanOut` only ever flags models,
      `SourceFanOut` only ever flags sources, and `UnusedSources` flags nothing. */
  predicate IsInvalid(test: NodeTest, node: Node)
    ensures IsInvalid(test, node) && test != SourceFanOut ==> node.resourceType == "model"
    ensures IsInvalid(test, node) && test == SourceFanOut ==> node.resourceType == "source"
    ensures test == UnusedSources ==> !IsInvalid(test, node)
  {
    match test
    case DirectJoinSource =>
      node.resourceType == "model" && |node.sources| != 0 && |node.refs| != 0
    case MartsOrIntermediateOnSource =>
      node.resourceType == "model" && |node.sources| != 0 &&
        ("marts" in node.fqn || "intermediate" in node.fqn)
    case HardCodedReferences =>
      node.resourceType == "model" && |node.refs| == 0 && |node.sources| == 0
    case ModelFanOut =>
      node.resourceType == "model" && |node.childMap| > 3
    case MultipleSourcesJoined =>
      node.resourceType == "model" && |node.sources| > 1
    case NoParents =>
      node.resourceType == "model" && |node.sources| == 0 && |node.refs| == 0
    case StagingOnDownstream =>
      node.resourceType == "model" && StartsWith(node.name, "stg_") && |node.refs| != 0
    case SourceFanOut =>
      node.resourceType == "source" && |WithPrefix(node.childMap, "model")| > 1
    case StagingOnStaging =>
      node.resourceType == "model" && StartsWith(node.name, "stg_") &&
        |WithPrefix(node.parentMap, "stg_")| > 1
    case UnusedSources =>
      // a whole-graph check that is not implemented on a single node
      false
    case NamingConventions =>
      (node.resourceType == "model" && "intermediate" in node.fqn && StartsWith(node.name, "int_")) ||
        (node.resourceType == "model" && "staging" in node.fqn && StartsWith(node.name, "stg_"))
    case BadDirectory =>
      (node.resourceType == "model" && "staging" !in node.fqn && StartsWith(node.name, "stg_")) ||
        (node.resourceType == "model" && "intermediate" !in node.fqn && StartsWith(node.name, "int_"))
  }

  /** The human-readable description of a rule; a report groups violations under it. */
  function Description(test: NodeTest): string
  {
    match test
    case DirectJoinSource => "Found models with a reference to both a model and a source"
    case MartsOrIntermediateOnSource => "Found marts or intermediates with a reference to a source"
    case HardCodedReferences => "Found models with hardcoded references"
    case ModelFanOut => "Found models with more than 3 leaf children"
    case MultipleSourcesJoined => "Found models with references to more than one source"
    case NoParents => "Found models with 0 direct parents"
    case StagingOnDownstream => "Found staging models with references to downstream models"
    case SourceFanOut => "Found sources with multiple children"
    case StagingOnStaging => "Found staging models with references to other staging models"
    case UnusedSources => "Found unused sources"
    case NamingConventions => "Found models with bad naming conventions"
    case BadDirectory => "Found models not in the appropriate directory"
  }

  /** The whole catalog, in declaration order. */
  const AllRules: seq<NodeTest> := [
    DirectJoinSource, MartsOrIntermediateOnSource, HardCodedReferences, ModelFanOut,
    MultipleSourcesJoined, NoParents, StagingOnDownstream, SourceFanOut, StagingOnStaging,
    UnusedSources, NamingConventions, BadDirectory
  ]

  lemma CatalogComplete(test: NodeTest)
    ensures test in AllRules
  {
  }

  /** The rules run when the caller selects none. */
  const DefaultRules: seq<NodeTest> := [
    DirectJoinSource,
    HardCodedReferences,
    MartsOrIntermediateOnSource,
    ModelFanOut,
    SourceFanOut,
    MultipleSourcesJoined,
    NoParents,
    StagingOnStaging,
    StagingOnDownstream,
    UnusedSources
  ]

  /** The default selection lists every rule except the two opt-in naming rules, and lists
      no rule twice. */
  lemma DefaultRulesOptIn(test: NodeTest)
    ensures test in DefaultRules <==> test !in {NamingConventions, BadDirectory}
    ensures forall i, j :: 0 <= i < j < |DefaultRules| ==> DefaultRules[i] != DefaultRules[j]
  {
  }

  /** So the default selection runs every rule once, except the two opt-in naming rules. */
  lemma DefaultRulesOnce(test: NodeTest)
    ensures multiset(DefaultRules)[test] == if test in {NamingConventions, BadDirectory} then 0 else 1
  {
    DefaultRulesOptIn(test);
    CountDistinct(DefaultRules, test);
  }

  /** In a list without repeats, an element occurs once if it is listed and not at all otherwise. */
  lemma {:induction false} CountDistinct(s: seq<NodeTest>, x: NodeTest)
    requires forall i, j :: 0 <= i < j < |s| ==> s[i] != s[j]
    ensures multiset(s)[x] == if x in s then 1 else 0
  {
    if s != [] {
      var init := s[..|s| - 1];
      CountDistinct(init, x);
      assert s == init + [s[|s| - 1]];
      assert s[|s| - 1] !in init;
    }
  }

  /** Recovers a rule from the length and the last character of its description: the
      descriptions differ in length, except two of length 57 that end in different letters. */
  function Identify(length: int, last: char): NodeTest
  {
    if length == 58 then DirectJoinSource
    else if length == 57 then (if last == 'e' then MartsOrIntermediateOnSource else StagingOnDownstream)
    else if length == 38 then HardCodedReferences
    else if length == 43 then ModelFanOut
    else if length == 52 then MultipleSourcesJoined
    else if length == 34 then NoParents
    else if length == 36 then SourceFanOut
    else if length == 60 then StagingOnStaging
    else if length == 20 then UnusedSources
    else if length == 40 then NamingConventions
    else BadDirectory
  }

  /** `Identify` recovers every rule from its description. */
  lemma IdentifyDescription(test: NodeTest)
    ensures |Description(test)| > 0
    ensures Identify(|Description(test)|, Description(test)[|Description(test)| - 1]) == test
  {
    if test in {DirectJoinSource, MartsOrIntermediateOnSource, HardCodedReferences, ModelFanOut} {
      IdentifyModelRules(test);
    } else if test in {MultipleSourcesJoined, NoParents, StagingOnDownstream, SourceFanOut} {
      IdentifyLineageRules(test);
    } else {
      IdentifyOtherRules(test);
    }
  }

  lemma IdentifyModelRules(test: NodeTest)
    requires test in {DirectJoinSource, MartsOrIntermediateOnSource, HardCodedReferences, ModelFanOut}
    ensures |Description(test)| > 0
    ensures Identify(|Description(test)|, Description(test)[|Description(test)| - 1]) == test
  {
  }

  lemma IdentifyLineageRules(test: NodeTest)
    requires test in {MultipleSourcesJoined, NoParents, StagingOnDownstream, SourceFanOut}
    ensures |Description(test)| > 0
    ensures Identify(|Description(test)|, Description(test)[|Description(test)| - 1]) == test
  {
  }

  lemma IdentifyOtherRules(test: NodeTest)
    requires test in {StagingOnStaging, UnusedSources, NamingConventions, BadDirectory}
    ensures |Description(test)| > 0
    ensures Identify(|Description(test)|, Description(test)[|Description(test)| - 1]) == test
  {
  }

  /** No two rules share a description, so a description identifies its rule. */
  lemma DescriptionInjective(a: NodeTest, b: NodeTest)
    ensures Description(a) == Description(b) ==> a == b
  {
    if Description(a) == Description(b) {
      IdentifyDescription(a);
      IdentifyDescription(b);
    }
  }

  /** The two rules for models without parents are the same condition. */
  lemma HardCodedReferencesIsNoParents(node: Node)
    ensures IsInvalid(HardCodedReferences, node) == IsInvalid(NoParents, node)
  {
  }

  /** A finite set has more than one element exactly when it holds two distinct ones. */
  lemma MoreThanOne(s: set<string>)
    ensures |s| > 1 <==> exists a, b :: a in s && b in s && a != b
  {
    if |s| > 1 {
      var a :| a in s;
      assert |s - {a}| == |s| - 1;
      var b :| b in s - {a};
    }
    if exists a, b :: a in s && b in s && a != b {
      var a, b :| a in s && b in s && a != b;
      assert s == {a, b} + (s - {a, b});
      assert |{a, b}| == 2;
    }
  }

  /** `SourceFanOut` flags exactly the sources with two distinct child ids starting with "model". */
  lemma SourceFanOutExactly(node: Node)
    ensures IsInvalid(SourceFanOut, node) <==>
      && node.resourceType == "source"
      && exists a, b :: && a in node.childMap && b in node.childMap && a != b
                        && StartsWith(a, "model") && StartsWith(b, "model")
  {
    MoreThanOne(WithPrefix(node.childMap, "model"));
  }

  /** `StagingOnStaging` flags exactly the models named "stg_…" with two distinct parent ids
      starting with "stg_". */
  lemma StagingOnStagingExactly(node: Node)
    ensures IsInvalid(StagingOnStaging, node) <==>
      && node.resourceType == "model"
      && StartsWith(node.name, "stg_")
      && exists a, b :: && a in node.parentMap && b in node.parentMap && a != b
                        && StartsWith(a, "stg_") && StartsWith(b, "stg_")
  {
    MoreThanOne(WithPrefix(node.parentMap, "stg_"));
  }

  /** A model that refers to no model and no source is flagged by both `HardCodedReferences`
      and `NoParents`. */
  lemma EmptyModelFlagged(node: Node)
    requires node.resourceType == "model" && node.refs == [] && node.sources == []
    ensures IsInvalid(HardCodedReferences, node) && IsInvalid(NoParents, node)
  {
  }

  /** A model in "marts" that refers to both a model and a source is flagged by
      `DirectJoinSource` and `MartsOrIntermediateOnSource` but not by `HardCodedReferences`;
      without the model reference it is not flagged by `DirectJoinSource`, but it is still
      flagged by `MartsOrIntermediateOnSource`. */
  lemma MartsExamples()
    ensures IsInvalid(DirectJoinSource,
      Node("testNode", "model", ["marts"], [["marts"]], [["marts"]], {}, {}))
    ensures IsInvalid(MartsOrIntermediateOnSource,
      Node("testNode", "model", ["marts"], [["marts"]], [["marts"]], {}, {}))
    ensures !IsInvalid(HardCodedReferences,
      Node("testNode", "model", ["marts"], [["marts"]], [["marts"]], {}, {}))
    ensures !IsInvalid(DirectJoinSource,
      Node("testNode", "model", ["marts"], [], [["marts"]], {}, {}))
    ensures IsInvalid(MartsOrIntermediateOnSource,
      Node("testNode", "model", ["marts"], [], [["marts"]], {}, {}))
  {
  }

  /** A source with children "model.a", "model.b", "model.c" and "seed.d" fans out. */
  lemma SourceFanOutExample()
    ensures IsInvalid(SourceFanOut,
      Node("raw", "source", ["raw"], [], [], {"model.a", "model.b", "model.c", "seed.d"}, {}))
  {
    var node := Node("raw", "source", ["raw"], [], [], {"model.a", "model.b", "model.c", "seed.d"}, {});
    assert StartsWith("model.a", "model") && StartsWith("model.b", "model");
    SourceFanOutExactly(node);
  }

  /** A staging model with one staging parent and one other parent is not flagged. */
  lemma StagingOnStagingExample()
    ensures !IsInvalid(StagingOnStaging,
      Node("stg_orders", "model", ["staging"], [], [], {}, {"stg_customers", "src_raw"}))
  {
    var node := Node("stg_orders", "model", ["staging"], [], [], {}, {"stg_customers", "src_raw"});
    assert "src_raw"[1] != "stg_"[1];
    assert !StartsWith("src_raw", "stg_");
    StagingOnStagingExactly(node);
  }

  /** `NamingConventions` flags a model whose name prefix matches its directory, and
      `BadDirectory` flags a staging-named model outside the staging directory. */
  lemma NamingExamples()
    ensures IsInvalid(NamingConventions,
      Node("int_orders", "model", ["intermediate", "int_orders"], [["stg_orders"]], [], {}, {}))
    ensures !IsInvalid(BadDirectory,
      Node("int_orders", "model", ["intermediate", "int_orders"], [["stg_orders"]], [], {}, {}))
    ensures IsInvalid(BadDirectory,
      Node("stg_orders", "model", ["marts", "stg_orders"], [], [["raw", "orders"]], {}, {}))
    ensures !IsInvalid(NamingConventions,
      Node("stg_orders", "model", ["marts", "stg_orders"], [], [["raw", "orders"]], {}, {}))
  {
    assert StartsWith("int_orders", "int_");
    assert !StartsWith("int_orders", "stg_") by { assert "int_orders"[0] != "stg_"[0]; }
    assert StartsWith("stg_orders", "stg_");
    assert !StartsWith("stg_orders", "int_") by { assert "stg_orders"[0] != "int_"[0]; }
    assert "staging" !in ["intermediate", "int_orders"];
    assert "staging" !in ["marts", "stg_orders"];
    assert "intermediate" !in ["marts", "stg_orders"];
  }
}
