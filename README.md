# Grafos in Dafny

A model of the graph library of the Grafos project: the graph `Grafo`, its vertices `Vertice`, and its arcs `Aresta` (unweighted) and `ArestaPonderada` (weighted). The model proves what each operation does to the graph.

The Java classes are modelled in their own form:
- the graph, its vertices and its arcs are Dafny classes whose methods update fields in place;
- every graph operation is proved against a pure function on a value of the graph, the `Adjacency` (vertex id -> destination id -> weight);
- the lemmas state what those functions guarantee.

Modules:

- `Wrappers`: `Option`.
- `JavaLib`: the Java behaviour the code depends on, written out:
  - 32-bit `int` subtraction with wrap-around, and `Integer.compare`;
  - `Integer.toString` and `Integer.parseInt`;
  - `String.split` on one character, including Java's removal of trailing empty fields;
  - the line splitting of `BufferedReader.readLine`.
- `GraphSpec`: the graph as a value.
  - The four edge-insertion policies (`AddArestaNPND`, `AddArestaPND`, `AddArestaNPD`, `AddArestaPD`) and the constructor's choice among them.
  - `addVertice`, `addAresta`, `removerVertice` and `removerAresta` as functions.
  - `completo()` as out-degree n - 1, and `fortementeConexo()` as "every vertex has an incoming arc".
  - The complete graph K_n.
  - Lemmas about all of these.
- `Codec`: the three-line text format.
  - `Encode` is what `salvar()` writes.
  - `Decode` is what `Arquivo.lerGrafo` makes of a text; `None` stands for any exception the loader lets escape.
  - The round trip, and the two kinds of graph that do not survive it.
- `Edges`: class `Arc`. It stands for both `Aresta` and `ArestaPonderada`: a fixed destination, an optional fixed weight, and a `visitada` flag.
- `Vertices`: class `Vertex`. It holds an id, a map of arcs keyed by destination (the `TreeMap`), and the `visitado` flag. `ToFile` is proved to write the arcs in ascending destination order.
- `Graphs`: class `Graph`.
  - Its methods are proved to act on the ghost field `adj` exactly as the `GraphSpec` functions do.
  - `Valid()` ties `adj` to the vertex objects and their arc maps.
  - It also holds `gerarCompleto` (`GenerateComplete`), `salvar` (`Save`) and `lerGrafo` (`Load`).

Where the code and its documentation disagree, the model follows the code:
- `Vertice.addAresta` is a `TreeMap.put`, so it overwrites an existing arc to the same destination and reports false. Under an undirected policy, `addAresta(a, b)` can therefore return false after having changed the graph (`GraphSpec.AddArcOverwritesReverse`).
- `fortementeConexo()` only checks that every vertex is the destination of some arc. This is weaker than strong connectivity (`GraphSpec.AllEnteredIsNotStrongConnectivity`). It also fails for a single vertex without arcs.
- The saved text of a graph with no arc does not load back (`Codec.EdgelessDoesNotReload`). Neither does the text of a weighted graph holding a negative weight (`Codec.NegativeWeightDoesNotReload`).

## Model

| member | source | states |
|---|---|---|
| JavaLib.Sub32 | src/Vertice.java:75 | Java `int` subtraction: zero exactly when the operands are equal, and the true difference whenever that fits in an `int` |
| JavaLib.Compare | src/Vertice.java:74-76 | a comparison whose sign agrees with the numeric order in all three cases |
| JavaLib.Sub32MisordersExtremes | src/Vertice.java:75 | 0 - Integer.MIN_VALUE wraps to a negative value, while `Compare` ranks 0 above Integer.MIN_VALUE |
| JavaLib.IntToString | src/Grafo.java:199 | the decimal text of an `int`: non-empty, digits only, with a leading '-' exactly for negative values |
| JavaLib.ParseIntToString | src/Grafo.java:308 | `Integer.parseInt` gives back every `int` that `append(int)` wrote, negative ones included |
| JavaLib.Split | src/Grafo.java:305 | no field of `split(c)` contains c |
| JavaLib.SplitTerminated | src/Grafo.java:305 | splitting tokens each followed by ';' gives the tokens back when none is empty or holds the separator |
| JavaLib.SplitJoined | src/Grafo.java:310 | splitting "a-b[-w]" at '-' gives its fields back when none is empty or holds '-' |
| JavaLib.ReadLinesAfter | src/Grafo.java:304-305 | `readLine` returns the text up to the first "\n" and then continues after it |
| JavaLib.ReadThreeLines | src/Grafo.java:304-309 | three lines without terminators, joined by "\n", are read back as exactly those three lines |
| GraphSpec.SelectPolicy | src/Grafo.java:62-67 | the switch on `(ponderado ? 1 : 0) + (direcionado ? 2 : 0)` picks the policy that is weighted exactly when `ponderado` holds and directed exactly when `direcionado` holds |
| GraphSpec.AddVertex | src/Grafo.java:79-83 | succeeds exactly when the id is new; the ids become the old ones plus id; existing rows are untouched; the new vertex has no arcs |
| GraphSpec.Connect | src/Grafo.java:234-266 | every policy puts origin -> dest with the policy's weight and leaves every other vertex's arcs alone; a directed policy changes nothing else and reports whether the arc was new |
| GraphSpec.AddArc | src/Grafo.java:93-98 | refused and unchanged for a missing endpoint, a self-loop or an existing arc; otherwise the arc is present with the policy's weight; never adds or removes a vertex |
| GraphSpec.RemoveVertex | src/Grafo.java:107-113 | succeeds exactly when the id is present; the ids become the old ones minus id |
| GraphSpec.PruneStep | src/Grafo.java:111 | each `removerAresta(id)` of the `forEach` prunes one more vertex's arc into id |
| GraphSpec.PruneDone | src/Grafo.java:107-113 | after the loop over the remaining vertices, the arcs are those of `RemoveVertex` |
| GraphSpec.RemoveArc | src/Grafo.java:123-129 | refused and unchanged for a missing endpoint or a missing arc; never adds or removes a vertex |
| GraphSpec.AddVertexTwice | src/Grafo.java:79-83 | adding the same id a second time is refused and changes nothing |
| GraphSpec.AddVertexKeepsInvariants | src/Grafo.java:79-83 | `addVertice` keeps the graph free of dangling arcs, with weights exactly when the graph is weighted |
| GraphSpec.AddArcEffect | src/Grafo.java:93-98 | a refused call changes nothing unless the guard passed; success implies the guard passed and the arc exists; an undirected success adds the reverse arc with the same weight; a directed call touches only the origin's arcs |
| GraphSpec.AddArcOverwritesReverse | src/Grafo.java:234-258 | under an undirected policy, when b -> a already exists, `addAresta(a, b)` reports false yet adds a -> b and overwrites b -> a with the new weight; nothing else changes |
| GraphSpec.AddArcSymmetric | src/Grafo.java:93-98 | on a symmetric graph an undirected `addAresta` succeeds exactly when the guard passes, and the graph stays symmetric |
| GraphSpec.AddArcKeepsInvariants | src/Grafo.java:93-98 | `addAresta` creates no dangling arc, no self-loop and no weight mismatch |
| GraphSpec.LinkFresh | src/Grafo.java:234-258 | an undirected policy linking two unlinked vertices succeeds and adds both arcs with the same weight |
| GraphSpec.RemoveVertexEffect | src/Grafo.java:107-113 | afterwards no vertex has an arc into id, every other arc keeps its weight, and no arc is created |
| GraphSpec.RemoveVertexKeepsInvariants | src/Grafo.java:107-113 | `removerVertice` leaves no dangling arc, and keeps the graph loop-free and symmetric when it was |
| GraphSpec.RemoveArcEffect | src/Grafo.java:123-129 | a -> b is gone; undirected: b -> a is gone too and the result says whether it existed; directed: success, with b -> a kept; every other arc stays with its weight, and no arc is created or reweighted |
| GraphSpec.RemoveArcKeepsInvariants | src/Grafo.java:123-129 | `removerAresta` keeps the graph well formed, loop-free, and symmetric when undirected |
| GraphSpec.DegreeIffLinked | src/Grafo.java:161 | without self-loops or dangling arcs, a vertex has out-degree n - 1 exactly when it has an arc to every other vertex |
| GraphSpec.CompleteIffAllPairsLinked | src/Grafo.java:157-162 | without self-loops or dangling arcs, `completo()` holds exactly when every ordered pair of distinct vertices is linked |
| GraphSpec.CompleteIffAllPairsLinkedIfLoopFree | src/Grafo.java:157-162 | the same equivalence, for any graph without dangling arcs that is loop-free |
| GraphSpec.CompleteGraphProperties | src/Grafo.java:138-149 | K_n is complete in both senses, symmetric, loop-free and well formed as an unweighted graph |
| GraphSpec.RemoveArcBreaksCompleteness | src/Grafo.java:157-162 | removing any one arc of K_n makes `completo()` false, directed or not |
| GraphSpec.IsolatedStep | src/Grafo.java:143-144 | `addVertice(i)` after the vertices 0 .. i - 1 succeeds and adds an isolated vertex i |
| GraphSpec.IsolatedIsPartiallyLinked | src/Grafo.java:143-147 | the n isolated vertices are the state before the first `addAresta` of the nested loops |
| GraphSpec.LinkedRowsStep | src/Grafo.java:146-147 | one step of the inner loop adds j to row i and i to row j, and leaves every other row alone |
| GraphSpec.LinkStep | src/Grafo.java:147 | `addAresta(i, j)` in the nested loops always succeeds and links exactly the pair i, j both ways |
| GraphSpec.NextRow | src/Grafo.java:145-147 | the end of one inner loop is the start of the next |
| GraphSpec.AllRowsLinked | src/Grafo.java:145-148 | after the last row the graph is K_n |
| GraphSpec.EnteredFromNone | src/Grafo.java:173 | before the marking loop no vertex is marked |
| GraphSpec.EnteredFromStep | src/Grafo.java:173 | going through one more vertex marks exactly its destinations |
| GraphSpec.EnteredFromAll | src/Grafo.java:173 | after every vertex, the marked vertices are the destinations of all arcs |
| GraphSpec.StronglyConnectedImpliesAllEntered | src/Grafo.java:170-175 | with two or more vertices, a strongly connected graph passes `fortementeConexo()` |
| GraphSpec.AllEnteredIsNotStrongConnectivity | src/Grafo.java:170-175 | two disjoint two-cycles pass `fortementeConexo()` although 0 does not reach 2 |
| GraphSpec.SingleArcNotAllEntered | src/Grafo.java:170-175 | the directed graph {0, 1} with only 0 -> 1 fails `fortementeConexo()` |
| GraphSpec.NotEntered | src/Grafo.java:174 | a vertex that no arc enters makes `fortementeConexo()` false |
| GraphSpec.WeightedPathBuilt | src/Grafo.java:79-98 | three `addVertice` and two weighted undirected `addAresta` calls build the path 0 -5- 1 -3- 2 with both arc directions |
| GraphSpec.WeightedPathCut | src/Grafo.java:123-129 | `removerAresta(1, 2)` on that path succeeds and drops both arcs between 1 and 2 |
| GraphSpec.PathEntered | src/Grafo.java:170-175 | the path passes `fortementeConexo()` |
| GraphSpec.CutPathNotEntered | src/Grafo.java:170-175 | after the cut it fails |
| GraphSpec.WeightedPathScenario | src/Grafo.java:170-175 | the path passes `fortementeConexo()` before the cut and fails after it |
| Codec.Header | src/Grafo.java:195-198 | line 1 has two characters: the first is '1' exactly for a weighted graph, the second exactly for a directed one |
| Codec.SortedKeys | src/Vertice.java:92 | the `TreeMap` iteration order: every destination once, strictly ascending |
| Codec.TerminatedEntriesSnoc | src/Vertice.java:94 | writing one more arc appends "ID-dest[-peso];" |
| Codec.TerminatedIdsSnoc | src/Grafo.java:199 | writing one more vertex appends "id;" to line 2 |
| Codec.ArcListStep | src/Grafo.java:201 | line 3 for one more vertex is the earlier text followed by that vertex's `toFile()` |
| Codec.TerminatedArcListStep | src/Grafo.java:201 | the same, for the text of line 3 |
| Codec.ArcListSound | src/Grafo.java:201 | every entry of line 3 is an arc of the graph, with its weight |
| Codec.ArcListComplete | src/Grafo.java:201 | every arc of every vertex appears on line 3 |
| Codec.EncodeLines | src/Grafo.java:194-201 | the saved text reads back as exactly its three lines when line 3 is not empty |
| Codec.DecodeIds | src/Grafo.java:305-308 | parses one id per field of line 2 |
| Codec.Base | src/Grafo.java:307-308 | after the vertex loop the vertices are exactly the listed ids, each without arcs; a repeated id is added once |
| Codec.DecodeItem | src/Grafo.java:310-316 | a loaded item has both ends among the vertices, and a weight exactly in a weighted graph |
| Codec.DecodeArcs | src/Grafo.java:309-317 | one entry per item of line 3, each with known ends and the graph's kind of weight |
| Codec.FoldArcs | src/Grafo.java:314-315 | the loader's plain `put`s add no vertex |
| Codec.FoldArcsKeepsWellFormed | src/Grafo.java:309-317 | loading arcs with known ends and matching weights keeps the graph well formed |
| Codec.Decode | src/Grafo.java:301-321 | every graph the loader returns is well formed: no dangling arc, and weights exactly when the graph is weighted |
| Codec.DecodeIdsStep | src/Grafo.java:307-308 | one more id: a parse failure fails the load, a success extends the ids |
| Codec.BaseSnoc | src/Grafo.java:308 | the vertices after one more id are those of `addVertice` on that id |
| Codec.DecodeArcsStep | src/Grafo.java:309-317 | one more item: a failure fails the load, a success extends the entries |
| Codec.FoldArcsSnoc | src/Grafo.java:314-315 | one more item puts one more arc into its origin's row |
| Codec.SplitToken | src/Vertice.java:94 | with non-negative numbers, a written arc token splits at '-' into its fields |
| Codec.DecodeItemOfToken | src/Grafo.java:310-316 | a written arc token with non-negative numbers and known ends loads back as the same arc |
| Codec.DecodeArcsOfTokens | src/Grafo.java:309-317 | a written line 3 loads back as the same entries |
| Codec.DecodeIdsOfIdTokens | src/Grafo.java:307-308 | a written line 2 parses back as the same ids, in order |
| Codec.DecodeLine2 | src/Grafo.java:305-308 | line 2 of the saved text gives the vertex ids back |
| Codec.DecodeLine3 | src/Grafo.java:309-317 | line 3 of the saved text gives the arc entries back |
| Codec.FoldVertexArcs | src/Grafo.java:314-315 | putting one vertex's written arcs restores its row |
| Codec.FoldArcList | src/Grafo.java:309-317 | putting the arcs of the first i vertices restores exactly their rows |
| Codec.FoldAll | src/Grafo.java:309-317 | putting all the arcs of line 3 into the listed vertices restores the graph |
| Codec.DecodeThreeLines | src/Grafo.java:303-317 | what the loader makes of three lines whose ids and items parse |
| Codec.SavedLines | src/Grafo.java:194-203 | the saved text of a reloadable graph: its three lines, and what each parses to |
| Codec.RoundTrip | src/Grafo.java:194-321 | loading what `salvar()` wrote gives back the same flags, vertices, arcs and weights, for every vertex order. This holds for every well-formed graph with at least one arc and no negative id or weight on line 3 |
| Codec.EdgelessDoesNotReload | src/Grafo.java:309 | a graph without arcs saves to a text whose third `readLine` is null, so loading fails |
| Codec.NegativeWeightSplit | src/Grafo.java:310 | the token "o-d--w" of a negative weight splits into four fields, the third one empty |
| Codec.NegativeWeightDoesNotReload | src/Grafo.java:310-315 | such a token fails to load as a weighted arc |
| Edges.Arc.Unweighted | src/Aresta.java:39-42 | stores the destination, no weight, not visited |
| Edges.Arc.Weighted | src/ArestaPonderada.java:42-46 | stores the destination and the weight, not visited |
| Edges.Arc.SetVisited | src/Aresta.java:47-48 | afterwards `eVisitada()` is the argument; the destination and weight are constants, and only the flag is in the frame |
| Edges.Arc.CompareTo | src/ArestaPonderada.java:53-56 | as written: `ClassCastException` (None) exactly for an unweighted other arc; zero exactly for equal weights; the sign of the true difference only when it fits in an `int` |
| Edges.Arc.CompareWeights | src/ArestaPonderada.java:53-56 | corrected: the same cast failure, and a sign that agrees with the order of the weights in all three cases |
| Edges.CompareToMisordersExtremes | src/ArestaPonderada.java:55 | weights 0 and Integer.MIN_VALUE: `compareTo` ranks 0 lower, `CompareWeights` ranks it higher |
| Vertices.Vertex.constructor | src/Vertice.java:45-49 | stores the id, no arcs, not visited |
| Vertices.Vertex.AddArc | src/Vertice.java:58-60 | the arc replaces any arc to the same destination, and the result is true exactly when there was none |
| Vertices.Vertex.RemoveArc | src/Vertice.java:69-71 | the result is true exactly when an arc to id existed; afterwards that arc is gone and the others are unchanged |
| Vertices.Vertex.HasArc | src/Vertice.java:102 | true exactly when id is a destination of the vertex's arcs |
| Vertices.Vertex.SetVisited | src/Vertice.java:106-108 | afterwards `getVisitado()` is the argument; only the flag is in the frame |
| Vertices.Vertex.CompareTo | src/Vertice.java:74-76 | as written: zero exactly for equal ids; the sign of the true difference only when it fits in an `int` |
| Vertices.Vertex.CompareIds | src/Vertice.java:74-76 | corrected: a sign that agrees with the order of the ids in all three cases |
| Vertices.Vertex.ToFile | src/Vertice.java:90-97 | one "ID-dest;" or "ID-dest-peso;" token per arc, in ascending destination order, with the weight part exactly for a weighted arc |
| Vertices.WrittenNext | src/Vertice.java:92-95 | the least destination left is the next one in ascending order, and its token extends the text |
| Vertices.WrittenAll | src/Vertice.java:90-97 | once no destination is left, the text is the vertex's complete arc list |
| Vertices.CompareToMisordersExtremes | src/Vertice.java:75 | ids 0 and Integer.MIN_VALUE: `compareTo` ranks 0 lower, `CompareIds` ranks it higher |
| Graphs.Graph.constructor | src/Grafo.java:59-70 | an empty graph with the given name and flags, and the policy the flags select |
| Graphs.Graph.AddVertex | src/Grafo.java:79-83 | `addVertice` on the objects does what `GraphSpec.AddVertex` does on the value, with a fresh vertex |
| Graphs.Graph.PutArc | src/Grafo.java:314-315 | `vertices.get(k).addAresta(arc)`: the row of k gets the arc, and the result says whether it was new |
| Graphs.Graph.DropArc | src/Grafo.java:127-128 | `vertices.get(k).removerAresta(d)`: the arc goes, and the result says whether it existed |
| Graphs.Graph.NewArc | src/Grafo.java:239-264 | the policy creates an `Aresta` or an `ArestaPonderada` with the given destination and weight |
| Graphs.Graph.Link | src/Grafo.java:234-266 | the policy's `addAresta(origem, destino)` on the objects does what `GraphSpec.Connect` does |
| Graphs.Graph.AddArc | src/Grafo.java:93-98 | `addAresta` on the objects does what `GraphSpec.AddArc` does under the graph's policy |
| Graphs.Graph.DropArcsTo | src/Grafo.java:111 | the `forEach` removes every arc into id and touches nothing else |
| Graphs.Graph.RemoveVertex | src/Grafo.java:107-113 | `removerVertice` on the objects does what `GraphSpec.RemoveVertex` does |
| Graphs.Graph.RemoveArc | src/Grafo.java:123-129 | `removerAresta` on the objects does what `GraphSpec.RemoveArc` does under the graph's direction flag |
| Graphs.Graph.IsComplete | src/Grafo.java:157-162 | `completo()` holds exactly when every vertex has out-degree n - 1; on a loop-free graph, exactly when every pair is linked |
| Graphs.Graph.PrepareSearch | src/Grafo.java:183-186 | every vertex's `visitado` becomes false |
| Graphs.Graph.Mark | src/Grafo.java:173 | `setVisitado(true)` on one destination leaves every other flag as it was |
| Graphs.Graph.MarkDestinations | src/Grafo.java:173 | afterwards a vertex is marked exactly when it was marked before or one of v's arcs enters it |
| Graphs.Graph.Search | src/Grafo.java:173 | afterwards a vertex is marked exactly when some arc enters it |
| Graphs.Graph.StronglyConnected | src/Grafo.java:170-175 | `fortementeConexo()` returns true exactly when every vertex has an incoming arc, and leaves the flags saying which vertices do |
| Graphs.Graph.AddIsolated | src/Grafo.java:143-144 | the first loop of `gerarCompleto` yields the vertices 0 .. n - 1, all without arcs |
| Graphs.Graph.LinkPair | src/Grafo.java:147 | one `addAresta(i, j)` of the nested loops links exactly i and j both ways |
| Graphs.Graph.LinkRow | src/Grafo.java:146-147 | one inner loop links i to every j > i |
| Graphs.Graph.GenerateComplete | src/Grafo.java:138-149 | no graph exactly when n < 1; otherwise a new, unweighted, undirected graph that is exactly K_n on 0 .. n - 1 |
| Graphs.Graph.IdLine | src/Grafo.java:199 | line 2 lists every vertex id once, each followed by ';' |
| Graphs.Graph.ArcLine | src/Grafo.java:201 | line 3 is every vertex's `toFile()` in the same vertex order |
| Graphs.Graph.Save | src/Grafo.java:194-203 | the text `salvar()` hands to the file writer is `Codec.Encode` of the graph, for one enumeration of its vertices |
| Graphs.Graph.LoadIds | src/Grafo.java:307-308 | the vertex loop succeeds exactly when every id of line 2 parses, and then the vertices are those ids, without arcs |
| Graphs.Graph.LoadItem | src/Grafo.java:313-316 | one item puts its arc into its origin's row |
| Graphs.Graph.LoadArcs | src/Grafo.java:309-317 | the arc loop succeeds exactly when every item loads, and then the arcs are those of `Codec.FoldArcs` |
| Graphs.Graph.Load | src/Grafo.java:301-321 | `lerGrafo` yields a graph exactly when `Codec.Decode` does, and then that graph: a new, valid graph with the given name and the decoded flags and arcs |

## Left out

- File I/O:
  - `Arquivo.salvarGrafo` (`src/Grafo.java:286-293`) and the opening of the file in `lerGrafo` are not modelled. `Graphs.Graph.Save` returns the text that would be written, and `Graphs.Graph.Load` takes the file's contents as a string.
  - The `IOException` that `lerGrafo` catches, and the partially built graph it then returns, are not modelled.
- Console input: `App.lerInt` and `App.lerStr` become parameters.
  - The weight prompts of `AddArestaPND` and `AddArestaPD` become the `weight` parameter of `AddArc`. Unweighted policies ignore it.
  - The size and name prompts of `gerarCompleto` become parameters of `GenerateComplete`.
  - `src/App.java` is not part of this model.
- `Graphs.Graph.GenerateComplete`: for negative n the source's private constructor passes n as the initial capacity of a `HashMap` before the `n < 1` test, which throws `IllegalArgumentException`. The model returns null for every n < 1.
- `Graphs.Graph.Load`: a malformed file makes the source throw `NullPointerException`, `NumberFormatException`, `StringIndexOutOfBoundsException` or `ArrayIndexOutOfBoundsException` (an item of line 3 with too few '-' fields, such as `5;` in an unweighted graph or `0-1;` in a weighted one), uncaught. The model returns null. It does not model the exception types, or the point at which the loader stops.
- `Graphs.Graph.Save`: the vertex order of a `HashMap` is unspecified. The model takes the order as a ghost enumeration and does not say which one Java uses.
- `Edges.Arc.CompareTo`: only `ArestaPonderada` has `compareTo`, so the model requires `this` to be weighted.
- An arc's destination is held as the destination's id, not as a reference to the `Vertice`. `Valid()` guarantees that the id is a vertex of the graph. In the loader, an unknown destination id makes the later `put` throw, and this is modelled as a failed load.
- The `toString` methods of all four classes are display-only. `carregar` (`src/Grafo.java:211-213`) only forwards to `lerGrafo`.
- `IAresta` and `IAddAresta` are interfaces without behaviour; `Arc` and `Policy` take their place.
- The `visitada` flag of an arc has its setter and getter modelled, but no operation of the graph reads it.
- `JavaLib.ParseInt` accepts ASCII digits only; Java also accepts other Unicode decimal digits.
- `JavaLib.ReadLines` treats the text as already decoded characters, so no character encoding is modelled.

## Findings

| source | as written | input that shows it | evidently intended | confidence | as-written member | corrected member |
|---|---|---|---|---|---|---|
| src/Vertice.java:74-76 | `compareTo` returns `this.ID - o.ID` in 32-bit arithmetic | ids 0 and Integer.MIN_VALUE: the difference wraps to Integer.MIN_VALUE, so 0 is ranked below Integer.MIN_VALUE | a comparison consistent with the order of the ids (`Integer.compare`) | not executed | Vertices.CompareToMisordersExtremes | Vertices.Vertex.CompareIds |
| src/ArestaPonderada.java:53-56 | `compareTo` returns `this.PESO - other.PESO` in 32-bit arithmetic | weights 0 and Integer.MIN_VALUE: 0 is ranked below Integer.MIN_VALUE | a comparison consistent with the order of the weights | not executed | Edges.CompareToMisordersExtremes | Edges.Arc.CompareWeights |
