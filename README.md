# evaldbt lint engine — a Dafny model

evaldbt checks the dependency graph of a dbt project against a fixed catalog of
structural "smell" rules. It reads the project's `manifest.json`, builds a graph in which
every node carries its own child and parent id sets, runs a selection of rules over every
node, and reports the names of the violating nodes grouped by rule description.

This project models the engine in three modules:

- `Manifest` (manifest.dfy): the `Node` record and the construction of the graph from the
  decoded manifest (`Manifest::from_str` after JSON decoding). `FromRaw` is imperative, as the
  source is: a loop over the nodes resets both id sets, inner loops insert every id the global
  `child_map` and `parent_map` list under the node's id, and the node is inserted into a fresh
  map. Ids are kept whether or not they name a node, and duplicate ids collapse.
- `NodeTests` (node_tests.dfy): the closed catalog of twelve rules as a datatype, `IsInvalid`
  (a pure predicate on one node), `Description` (the report key of each rule) and the default
  selection used when the caller names no rules.
- `Validation` (validation.dfy): `Check`, the imperative engine. It visits every node, and for
  each node every selected rule (the inner loop is the method `CheckNode`); when a rule flags
  the node, it appends the node's name to the bucket keyed by that rule's description, creating
  the bucket on the first hit. `Check` is proved equal to `Report`. That specification gives
  each rule its own bucket (`Bucket`, the concatenation of each visited node's `Hits`) and keys
  the non-empty ones by description. The lemmas that follow are stated about `Report`.

`NamingConventions` flags models whose name prefix matches their directory (an "int_" model
under "intermediate", a "stg_" model under "staging"), although its description speaks of
bad naming conventions. The model keeps that condition as the code states it; see
`NodeTests.NamingExamples`.

The node map's iteration order is unspecified in the source. The model makes it a parameter.
The raw node listing given to `FromRaw` is a sequence of `(id, node)` pairs with distinct ids.
`Check` takes the built map together with `order`, a sequence that lists each of its ids once.
Every property holds for any such order.

## Model

| member | source | states |
|---|---|---|
| Manifest.FromRaw | src/main.rs:51-67 | the graph has exactly the input node ids; under each id is the input node with name, resource type, fqn, refs and sources unchanged, its child set equal to the ids listed under its id in the global child map, and its parent set equal to the ids listed in the global parent map (both empty when the id has no entry) |
| Manifest.ListedSize | src/main.rs:56-65 | a node's child (or parent) set never has more ids than the edge list has entries under its id, and has exactly as many when that entry repeats no id: repeated ids collapse into one |
| Manifest.KeyCount | src/main.rs:51-67 | a manifest with N distinct node ids yields a graph of exactly N nodes |
| NodeTests.IsInvalid | src/main.rs:93-141 | every rule except SourceFanOut flags only nodes whose resource type is "model"; SourceFanOut flags only "source" nodes; UnusedSources flags no node |
| NodeTests.EmptyModelFlagged | src/main.rs:102-113 | a model with no model references and no sources is flagged by both HardCodedReferences and NoParents |
| NodeTests.HardCodedReferencesIsNoParents | src/main.rs:102-113 | HardCodedReferences and NoParents give the same verdict on every node |
| NodeTests.SourceFanOutExactly | src/main.rs:118-121 | SourceFanOut holds exactly when the node is a source with two distinct child ids that start with "model" |
| NodeTests.StagingOnStagingExactly | src/main.rs:123-126 | StagingOnStaging holds exactly when the node is a model named "stg_…" with two distinct parent ids that start with "stg_" |
| NodeTests.SourceFanOutExample | src/main.rs:118-121 | a source with children "model.a", "model.b", "model.c" and "seed.d" is flagged |
| NodeTests.StagingOnStagingExample | src/main.rs:123-126 | a model "stg_orders" with parents "stg_customers" and "src_raw" is not flagged |
| NodeTests.MartsExamples | src/main.rs:189-234 | a "marts" model with refs and sources is flagged by DirectJoinSource and MartsOrIntermediateOnSource and not by HardCodedReferences; with no refs it is not, but MartsOrIntermediateOnSource still flags it |
| NodeTests.NamingExamples | src/main.rs:132-139 | NamingConventions flags an "int_" model in an "intermediate" directory and BadDirectory does not; BadDirectory flags a "stg_" model outside "staging" and NamingConventions does not |
| NodeTests.DescriptionInjective | src/main.rs:144-161 | no two rules share a description, so a description identifies its rule |
| NodeTests.DefaultRulesOptIn | src/main.rs:250-261 | the default selection lists every rule except NamingConventions and BadDirectory, and lists no rule twice |
| NodeTests.DefaultRulesOnce | src/main.rs:250-261 | so the default selection runs every rule exactly once, except NamingConventions and BadDirectory, which it never runs |
| Validation.Values | src/main.rs:171 | the visited nodes are the map's values, one per id of the iteration order, in that order |
| Validation.Check | src/main.rs:169-182 | the report built by the nested loops equals `Report`: under the description of every selected rule that flags some node, that rule's bucket, for nodes visited in the given order |
| Validation.CheckNode | src/main.rs:172-179 | running the selected rules over one node turns the report of the nodes visited before it into the report of those nodes followed by this one |
| Validation.PartialHit | src/main.rs:173-177 | when a rule flags the node, the node's name is pushed onto the end of the bucket under the rule's description, or a new bucket holding just that name is created; nothing else changes |
| Validation.PartialMiss | src/main.rs:173 | when a rule does not flag the node, the report is unchanged |
| Validation.KeyedUpdate | src/main.rs:174-176 | because descriptions are distinct, changing one rule's bucket changes only the report entry under that rule's description |
| Validation.ReportBucket | src/main.rs:169-182 | a rule's description is a report key exactly when the rule is selected and flags some visited node, and the entry under it is that rule's own bucket, never merged with another rule's |
| Validation.ReportKeys | src/main.rs:169-182 | a string is a report key exactly when it is the description of a selected rule that flags some node; no bucket is empty |
| Validation.HitsOfRule | src/main.rs:172-177 | within a rule's bucket, one node contributes its name once per entry of the rule in the selection if the rule flags it, and nothing otherwise |
| Validation.NameMultiplicity | src/main.rs:171-180 | with distinct node names, a node's name occurs in a rule's bucket as often as the rule occurs in the selection when the rule flags the node, and not at all otherwise |
| Validation.BucketConcat | src/main.rs:171-180 | the bucket of nodes `a` followed by nodes `b` is `a`'s bucket followed by `b`'s, so buckets list names in node visiting order |
| Validation.BucketOfRule | src/main.rs:173-177 | every name in a rule's bucket belongs to a visited node that the rule flags, and the rule is in the selection |

## Left out

- JSON decoding of the manifest (src/main.rs:50) and the serde defaults: a foreign library with a panic path. `FromRaw` starts from the decoded value.
- Reading the manifest file, parsing the command line with clap, and printing the report (src/main.rs:8-16, 237-268): I/O. Only the default rule list is kept, as `NodeTests.DefaultRules`.
- The `columns` field and the `Column` record: no rule reads them.
- The raw `parent_map` and `child_map` that `from_str` copies back into the manifest (src/main.rs:68-72): `check` never reads them.
- Concrete `HashMap` iteration order: it is a parameter, and no property depends on it.
