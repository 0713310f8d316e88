# sagemaker-core code generators, modelled in Dafny

sagemaker-core generates Python classes for the Amazon SageMaker service from the
service's JSON model (`service-2.json`). This project models the pure logic at the
centre of the two generators:

- **Shapes generator** (`src/tools/shapes_codegen.py`):
  - `build_graph` maps each shape to the shapes its members depend on. A list member
    depends on its element shape, and a map member on its key and then its value shape.
  - `topological_sort` does a depth-first search over that graph. On an acyclic graph
    it emits every name after its dependencies.
  - `_filter_input_output_shapes` skips operation input and output shapes.
  - `_generate_doc_string_for_shape` renders a shape's docstring.
  - The loop in `generate_shapes` picks which shapes become classes, in topological order.
- **Utilities** (`src/util/util.py`): `add_indent`, `clean_documentaion` and
  `convert_to_snake_case`.
- **Resources generator** (`src/tools/resources_codegen.py`):
  - the constructor's service-id and protocol check;
  - `_is_get_in_class_methods` and `_evaluate_method`;
  - the rendering of an operation's input arguments;
  - the cleanup of class-attribute type strings;
  - the Python-to-JSON-schema type map;
  - the terminal-state filter and status key path of the two wait methods.

How Python's data is represented:

- Python dictionaries are insertion-ordered association lists (`Dicts.Dict`). Every
  loop over a dictionary therefore has a fixed, provable order.
- A `KeyError` that the code would raise is an `Err(KeyError(key))` value
  (`ShapeModel.CodegenError`).
- Strings are sequences of characters. `str.split`, `str.join`, `rstrip`, `strip`,
  `startswith`, `in` and `replace` are defined in `Strings`, with their Python semantics
  and round-trip lemmas.
- The regular expressions of `util.py` are written out as character-level functions.

Modules, leaf to root: `Wrappers`, `Dicts`, `Strings`, `Util`, `ShapeModel`,
`DependencyGraph`, `TopologicalOrder`, `ShapesCodegen`, `ResourcesCodegen`.

Main results:

- **Graph.** `BuildGraph`, a loop-for-loop method, equals a functional definition.
  `BuildGraphSpec` says exactly which shapes get a key and what each key's dependency
  list is.
- **Sort, all graphs.** The DFS (`Visit`/`VisitAll`) terminates on every graph. Python's
  recursion limit is not modelled. The output has no duplicates. It contains exactly the
  graph's keys and the names they mention (`TopologicalSortComplete`).
- **Sort, acyclic graphs.** Every name comes after its dependencies
  (`TopologicalSortOrdered`). Acyclicity is stated as the existence of a rank function
  that decreases along every edge.
- **Sort, cycles.** `CycleExample` is a two-node cycle on which the order is wrong.
- **Generated classes.** A name gets a class exactly when it appears in the dependency
  graph (as a key or as a dependency), is no operation's input or output, and is a
  structure (`GenerateShapeOrder`). No class is written twice. On an acyclic model each
  comes after every dependency that is also generated (`GeneratedClassesOrdered`).

## Model

| member | source | states |
|---|---|---|
| DependencyGraph.MemberDeps | src/tools/shapes_codegen.py:82-92 | one member's contribution: an unknown shape contributes nothing; a list contributes its element shape, a map its key shape and then its value shape, any other shape the member's own shape name; a list without "member" or a map without "key"/"value" is the only error |
| DependencyGraph.ExperimentRequestDeps | src/tools/shapes_codegen.py:79-92 | for a structure shaped like CreateExperimentRequest, a scalar shape used by two members is listed twice, in member order, and the list member contributes its element shape, not the list's name |
| DependencyGraph.MembersDepsConcat | src/tools/shapes_codegen.py:79-93 | the dependency list of concatenated members is the concatenation of their lists (order follows member declaration order) |
| DependencyGraph.MembersDepsErrIff | src/tools/shapes_codegen.py:79-92 | a structure's members fail exactly when one of its members refers to a malformed list or map shape |
| DependencyGraph.GraphOfErrIff | src/tools/shapes_codegen.py:77-92 | building the graph fails exactly when some structure has such a member |
| DependencyGraph.AppendMemberDeps | src/tools/shapes_codegen.py:83-92 | the inner step appends the member's contribution to the node's list, or raises the member's KeyError |
| DependencyGraph.AddMember | src/tools/shapes_codegen.py:80-92 | one pass of the member loop: an unknown shape changes nothing, otherwise the member's contribution extends the node's entry, or its KeyError ends the walk |
| DependencyGraph.AddMemberDeps | src/tools/shapes_codegen.py:79-93 | the member loop of one shape stores the accumulated list under the node, and stores nothing when no member resolves |
| DependencyGraph.BuildGraph | src/tools/shapes_codegen.py:74-96 | the two nested loops with `graph.get`/`graph[node] =` compute the functional graph definition |
| DependencyGraph.GraphUnique | src/tools/shapes_codegen.py:77-95 | the graph has no repeated key |
| DependencyGraph.BuildGraphSpec | src/tools/shapes_codegen.py:77-95 | a name that is not a shape has no key; a shape without "members" maps to None; a structure has a key iff its members contribute at least one name, and then maps to exactly that list; the keys are those names in the order of the shapes table |
| DependencyGraph.GraphKeys | src/tools/shapes_codegen.py:77-95 | the graph's keys are the shapes that get a key, in the order the shapes table lists them, so the DFS starts from them in that order |
| TopologicalOrder.Visit | src/tools/shapes_codegen.py:108-115 | `dfs(n)` marks n visited, keeps the output duplicate-free and a subset of the visited set, only extends the output, and appends n last |
| TopologicalOrder.VisitAll | src/tools/shapes_codegen.py:112-119 | visiting a sequence of names in turn leaves every one of them visited, only extending the state |
| TopologicalOrder.LeafAppended | src/tools/shapes_codegen.py:109-115 | a name that is no key, or maps to None, is appended at once without expansion |
| TopologicalOrder.TopologicalSort | src/tools/shapes_codegen.py:104-121 | the order has no duplicates, contains every graph key, and mentions only graph names |
| TopologicalOrder.TopologicalSortComplete | src/tools/shapes_codegen.py:117-121 | the order contains exactly the keys and the names they depend on |
| TopologicalOrder.TopologicalSortOrdered | src/tools/shapes_codegen.py:108-121 | on an acyclic graph every name comes after all of its dependencies |
| TopologicalOrder.TwoCycleSort | src/tools/shapes_codegen.py:98-121 | on any graph made of two names that list each other, the order is the second key then the first |
| TopologicalOrder.CycleExample | src/tools/shapes_codegen.py:108-121 | on the cycle A→B→A the order is [B, A], which breaks dependencies-first: acyclicity is needed |
| ShapesCodegen.IoShapes | src/tools/shapes_codegen.py:209-214 | the collected list holds exactly the input and output shapes of the operations |
| ShapesCodegen.FilterInputOutputShapes | src/tools/shapes_codegen.py:209-218 | a shape is kept iff no operation uses it as input or output |
| ShapesCodegen.ShapeDocstring | src/tools/shapes_codegen.py:150-165 | fails with KeyError(name) exactly when the shape is unknown |
| ShapesCodegen.DocstringJoin | src/tools/shapes_codegen.py:152-165 | the docstring is the header lines, then one line per member in declaration order, joined by newlines |
| ShapesCodegen.AppendMemberDocsJoin | src/tools/shapes_codegen.py:159-163 | the member loop's string concatenation is the join of the member lines |
| ShapesCodegen.DocstringLines | src/tools/shapes_codegen.py:152-165 | when the name and documentation texts hold no newline, splitting the docstring at newlines gives back exactly those lines |
| ShapesCodegen.SelectShapes | src/tools/shapes_codegen.py:257-263 | every selected name is from the order and is an eligible structure |
| ShapesCodegen.SelectShapesErr | src/tools/shapes_codegen.py:257-260 | the loop fails iff a candidate that passes the filter is missing from the shapes, with the KeyError of the first such name |
| ShapesCodegen.SelectShapesExact | src/tools/shapes_codegen.py:257-263 | a name is generated iff it is in the order, not an operation input/output, and a structure |
| ShapesCodegen.SelectShapesNoDuplicates | src/tools/shapes_codegen.py:257-263 | no class is generated twice |
| ShapesCodegen.SelectShapesOrdered | src/tools/shapes_codegen.py:257-263 | filtering keeps dependencies-first among the generated classes |
| ShapesCodegen.GenerateShapeOrder | src/tools/shapes_codegen.py:256-263 | with unique shape names, a name gets a class exactly when it is a key of the dependency graph or listed by one, is no operation's input or output, and is a structure |
| ShapesCodegen.GeneratedClassesOrdered | src/tools/shapes_codegen.py:256-263 | on an acyclic model the classes are written without repetition, each after the generated classes it depends on |
| ShapesCodegen.GeneratedClassesComplete | src/tools/shapes_codegen.py:256-263 | every graph key that is an eligible structure gets a class |
| ShapesCodegen.UnreferencedEmptyStructureSkipped | src/tools/shapes_codegen.py:256-263 | a structure whose members contribute nothing and that no shape depends on gets no class |
| Util.AddIndent | src/util/util.py:28-31 | the result has as many newlines as the text and never ends in a space |
| Util.AddIndentLines | src/util/util.py:28-31 | every line but the last is the indent plus the original line; the last is that with trailing spaces stripped |
| Util.AddIndentCount | src/util/util.py:29-30 | indenting every line keeps the line count |
| Util.AddIndentEmpty | src/util/util.py:28-31 | indenting the empty text gives the empty text |
| Strings.JoinSplit | src/util/util.py:29-30 | joining the parts of a split with the same separator restores the text |
| Strings.SplitJoin | src/util/util.py:29-30 | splitting a join of separator-free parts gives back the parts |
| Util.ConvertToSnakeCase | src/util/util.py:50 | no upper-case letter remains; the first character is only lowered; the length grows by one per later upper-case letter |
| Util.SnakeCasePositions | src/util/util.py:50 | each later character appears lowered at its shifted position, preceded by '_' exactly when it was upper-case |
| Util.SnakeCaseOnlyAddsUnderscores | src/util/util.py:50 | apart from underscores the result is the lowered input |
| Util.SnakeCaseIdempotent | src/util/util.py:50 | converting twice is converting once |
| Util.SnakeCaseAbsent | src/util/util.py:50 | a character that is not a lower-case letter or '_' appears in the result only if it was in the input |
| Util.CleanDocumentation | src/util/util.py:35-37 | never lengthens the text, and leaves text without `<` unchanged |
| Util.CleanDocumentationUnchanged | src/util/util.py:35-37 | the text is unchanged exactly when none of `<p>`, `</p>`, `<code>`, `</code>` occurs in it |
| Util.DropParagraphTagAfter | src/util/util.py:35 | the first `<p>` or `</p>` after text without `<` is deleted and the scan resumes right after it |
| Util.QuoteCodeTagAfter | src/util/util.py:36 | the first `<code>` or `</code>` after text without `<` becomes a single quote and the scan resumes right after it |
| Util.CleanParagraph | src/util/util.py:35 | a `<p>…</p>` paragraph loses both tags |
| Util.CleanCodeSpan | src/util/util.py:35-36 | a `<code>…</code>` span becomes a single-quoted span |
| ResourcesCodegen.CheckService | src/tools/resources_codegen.py:93-96 | construction succeeds iff the service id is SageMaker and the protocol json; a wrong service id is reported before a wrong protocol |
| ResourcesCodegen.IsGetInClassMethods | src/tools/resources_codegen.py:792 | true iff "get" is one of the class methods |
| ResourcesCodegen.EvaluateMethod | src/tools/resources_codegen.py:257-261 | a listed method is rendered by its generator; an unlisted one renders as the empty string |
| ResourcesCodegen.OperationInputArgs | src/tools/resources_codegen.py:366-380 | KeyError("input") without an input, KeyError(name) for an unknown input shape; succeeds iff the input shape has members |
| ResourcesCodegen.JoinCommas | src/tools/resources_codegen.py:376-377 | joining with ",\n" and appending "," puts a comma at the end of every entry |
| ResourcesCodegen.OperationInputArgsLines | src/tools/resources_codegen.py:366-380 | one line per input member in declaration order: eight spaces, the quoted member name, its snake-cased argument (prefixed by `self.` for an instance method), and a comma |
| ResourcesCodegen.OperationInputArgsEmpty | src/tools/resources_codegen.py:366-380 | an input shape without members renders as eight spaces and a lone comma |
| ResourcesCodegen.CleanupClassAttributesTypes | src/tools/resources_codegen.py:718-724 | same keys in the same order; each value is its cleaned type |
| ResourcesCodegen.CleanupOptional | src/tools/resources_codegen.py:720-722 | `Optional[T] = default` cleans to `T` |
| ResourcesCodegen.CleanupRequired | src/tools/resources_codegen.py:720-723 | a non-optional `T` or `T = default` cleans to `T` |
| ResourcesCodegen.CleanupOptionalPrefixedName | src/tools/resources_codegen.py:721-722 | a type name that merely starts with "Optional" and has no bracket loses its last character |
| ResourcesCodegen.JsonSchemaType | src/tools/resources_codegen.py:778-780 | anything starting with "List" is "array"; otherwise the table's entry, or none exactly when the table lacks the type |
| ResourcesCodegen.AnyTerminal | src/tools/resources_codegen.py:610 | true iff some terminal state occurs in the state, ignoring case |
| ResourcesCodegen.TerminalResourceStates | src/tools/resources_codegen.py:606-611 | exactly the states that contain a terminal state, ignoring case; never more than the input |
| Strings.ContainsIff | src/tools/resources_codegen.py:609 | Python's `in` on strings, modelled as a scan, holds exactly when the pattern occurs as a slice at some index |
| ResourcesCodegen.TerminalStatesConcat | src/tools/resources_codegen.py:606-611 | the filter keeps the input order (it distributes over concatenation) |
| ResourcesCodegen.TerminalCaseInsensitive | src/tools/resources_codegen.py:609-610 | states that differ only in letter case are classified alike |
| ResourcesCodegen.StatusKeyPathJoin | src/tools/resources_codegen.py:614-616 | the path is an empty segment and the snake-cased chain names, joined by dots |
| ResourcesCodegen.StatusKeyPathSegments | src/tools/resources_codegen.py:637-639 | when no name contains a dot, splitting the path at dots gives back an empty segment and the snake-cased names |

## Notes on the code

Behaviours of the code that a reader might not expect, and that the model keeps:

- **Unknown member shapes.** `build_graph` skips a member whose shape is not in the
  model (shapes_codegen.py:82). No error is raised. `MemberDeps` contributes nothing
  for it.
- **Structures with no resolvable members.**
  - A structure whose members are all unresolvable, or that has an empty `members`
    mapping, gets no graph key at all (shapes_codegen.py:78-93).
  - Such a structure still gets a class when another shape depends on it, because it
    then reaches the order as a dependency (`GenerateShapeOrder`).
    `UnreferencedEmptyStructureSkipped` proves that it gets none otherwise.
  - A shape with no `members` key maps to `None` (line 95).
- **The `build_graph` docstring example** (shapes_codegen.py:67-69) lists `TagList` as a
  dependency. The code appends the list's element shape instead (lines 86-87), and the
  model does too (`ExperimentRequestDeps`).
- **Missing shapes in the selection loop.** A topologically ordered name that passes
  the input/output filter but is not a shape raises `KeyError` (line 259).
  `SelectShapesErr` characterises when that happens.
- **Type cleanup on `Optional`-prefixed names.**
  - `_cleanup_class_attributes_types` drops the last character of any type that starts
    with "Optional", including one that has no `Optional[` bracket
    (`CleanupOptionalPrefixedName`).
  - It removes every `Optional[`, not just the first.
  - The generator only feeds it the strings it builds itself, so this is recorded here
    rather than as a defect.

## Left out

- File writing, templates, `textwrap`, logging and the license header are left out: they are I/O or fixed text. `EvaluateMethod` omits the warning it logs for an unlisted method.
- `ShapesExtractor` and `ResourcesExtractor` (the resource plan, the status chain and the states) are not part of this model. Their results are parameters.
- `TERMINAL_STATES` and `PYTHON_TYPES_TO_BASIC_JSON_TYPES` are parameters. Their values live in a constants module that is not part of this model.
- `generate_data_class_for_shape`, the `generate_*_method` renderers, `generate_resource_class`, `_get_dict_with_default_configurable_attributes`, the `lru_cache`d config schema lookup and the JSON-schema builder around `_get_json_schema_type_from_python_type` are template assembly outside the modelled core.
- ResourcesCodegen.EvaluateMethod: the `getattr(self, "generate_" + name + "_method")` dispatch is a function parameter. The `AttributeError` for a method without a generator is not modelled. The keyword arguments that `_evaluate_method` passes on (such as `needs_defaults_decorator` for "create", resources_codegen.py:322-323) are assumed bound inside that parameter.
- Shape and member records always carry their "type" and "shape" fields. A model lacking them, which raises `KeyError` in Python, is not representable. The same holds for the metadata keys read by the constructor.
- ShapeModel.Operation: an operation's "input" and "output" are the shape names inside them. Two cases of `_filter_input_output_shapes` (shapes_codegen.py:209-214) are therefore not representable: an empty `{}` input or output, which Python skips as falsy, and one without a "shape" key, which raises `KeyError('shape')`. ResourcesCodegen.OperationInputArgs reads the same `["input"]["shape"]` (resources_codegen.py:365) and is limited in the same way.
- TopologicalOrder.Visit: Python's `dfs` (shapes_codegen.py:108-115) is recursive and raises `RecursionError` on a dependency chain deeper than the interpreter's recursion limit (1000 frames by default). The model has no such limit and terminates on every graph.
- ResourcesCodegen.OperationInputArgsLines: needs member names free of newlines, as `DocstringLines` does. With a newline inside a name the rendered text is still built the same way, but it does not split back into one line per member.
- TopologicalOrder.TopologicalSortOrdered: stated for acyclic graphs only, with acyclicity given as a rank function that decreases along every edge. `CycleExample` shows the property fails on a cycle, which the code does not detect.
- ResourcesCodegen.CleanupClassAttributesTypes: requires unique keys, which every Python `dict` has.
- ResourcesCodegen.StatusKeyPathJoin: takes the chain's `name` values rather than the member dictionaries. A member without "name" is not modelled.
- Util.ConvertToSnakeCase: upper and lower case are ASCII only. Python's Unicode case mapping is not modelled, and the same holds for whitespace in `strip` (ASCII whitespace only).
- ShapesCodegen.SelectShapes: on a `KeyError` the Python code has already written part of the output file. The model returns only the error.
- ShapesCodegen.DocstringLines: needs the shape name and the documentation texts to be free of newlines. With newlines inside them the docstring still equals the join of the same lines (`DocstringJoin`), but it does not split back into them.
