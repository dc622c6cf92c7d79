# npqgen in Dafny

A model of the core of npqgen, a generator of navigational path queries.
npqgen reads a small schema: node labels and directed, labelled relationships
between them. It walks the schema at random and writes the walk as a query
such as `A(a), of(a,b), B(b)`. The first variable is `a`, the 26th is `z` and
the 27th is `aa`.

The repository has two versions of the generator, and each has its own
module here.

- **`SubgraphGen`, `SubgraphQueries`, `SubgraphGrowth`** model
  `subgraph.go`. A relationship points at the very node objects stored in the
  graph's map. The random walk hands out those shared objects. A *subgraph*
  grows one element at a time from the local neighbourhood of what it has
  selected. Two renderers turn a subgraph into a query:
  - `AllDifferentQuery` gives every binding slot its own variable;
  - `MaximallyJoined` gives every node label one shared variable.
- **`NpqGen`** models the older `npqgen.go`. The graph stores node and
  relationship *values*. A relationship points at private copies of its end
  nodes. The walk hands out the addresses of fresh copies of what it visits.
  The renderer emits the first stop, every relationship and the last stop.
- **`Letters`** specifies the variable names, the bijective base-26 numeral
  `Enc`. Both versions of `convertToAlphabetic` are proved to compute it.
- **`Strings`** models `strings.Join` and `slices.DeleteFunc(…, empty)`.
- **`Collections`** models duplicate removal.
- **`Wrappers`** holds `Option` and `Result`.

Schema entities follow the source's form:
- Nodes and relationships are classes, because the renderers write their
  `varFrom`/`varTo` slots in place and object identity matters.
- A path stop is `Waypoint = N(Node) | R(Relationship)`.
- The graph, the subgraph and the renderers' loops are classes and methods
  with loop invariants. Each is proved against a function that says what the
  result or the new state is.

Randomness and map iteration order are inputs of the model:
- the walk's `r1.Intn` draws are `picks` (hop k takes candidate
  `picks[k] % |candidates|`);
- the star draw of a reflexive relationship is a `bool` per stop;
- `RandomGrow`'s draw is an arbitrary choice (`:|`);
- every `for … range` over a Go map is an arbitrary enumeration (a `visit`
  sequence, or `:|` over the keys not yet seen).

Every property is proved for every outcome of these choices. Go's `Intn(0)`
panic becomes an error value: `NoIncidentEdge` for the walk, `Stuck` for
`RandomGrow`.

## Model

| member | source | states |
|---|---|---|
| `Letters.EncShape` | subgraph.go:338-346 | the name of `n` is empty exactly when `n <= 0`, and otherwise a word over 'a'..'z' |
| `Letters.DecEnc` | subgraph.go:338-346 | decoding the name of a count gives the count back |
| `Letters.EncDec` | subgraph.go:338-346 | every word over 'a'..'z' is the name of exactly one count, so the naming is a bijection onto those words |
| `Letters.EncInjective` | subgraph.go:338-346 | different positive counts get different variable names |
| `Letters.EncExamples` | subgraph.go:338-346 | 1, 2, 26 and 27 are named "a", "b", "z" and "aa" |
| `Letters.Digit` | subgraph.go:342 | the digit `d` in 0..25 is a letter 'a'..'z' |
| `Strings.DropEmpty` | subgraph.go:270 | deleting the empty strings never lengthens the list |
| `Strings.DropEmptyMembers` | subgraph.go:270 | after the deletion, a string is in the list exactly when it was there before and is non-empty |
| `Strings.DropEmptyAppend` | subgraph.go:400 | deleting empty strings from a concatenation is the concatenation of the deletions |
| `Strings.DropEmptyNoEmpty` | subgraph.go:400 | a list with no empty string is left as it is |
| `Strings.JoinFour` | npqgen.go:201 | four parts are joined with exactly three separators |
| `Collections.Dedup` | subgraph.go:199 | the result has no duplicates and holds exactly the elements of its input |
| `SubgraphGen.Node.constructor` | subgraph.go:76-82 | a new node has the given label and flag and empty binding slots |
| `SubgraphGen.Relationship.constructor` | subgraph.go:135-139 | a new relationship's ends are the given node objects themselves, not copies |
| `SubgraphGen.Relationship.Reflexive` | subgraph.go:39-41 | a relationship is reflexive exactly when it touches a single label, equivalently when a walk taking it from either end comes back to the same label |
| `SubgraphGen.Waypoint.GetMode` | subgraph.go:65-70 | a node is `UnLabel` iff it is unlabelled and `NodeType` otherwise; a relationship is `RelInv` iff a predecessor exists whose label is that of its `to` end, and `RelType` otherwise |
| `SubgraphGen.Waypoint.SetLabelFrom` | subgraph.go:62 | writes the `varFrom` slot and leaves `varTo` alone |
| `SubgraphGen.Waypoint.SetLabelTo` | subgraph.go:63 | writes the `varTo` slot and leaves `varFrom` alone |
| `SubgraphGen.Graph.constructor` | subgraph.go:109-112 | the empty graph is valid |
| `SubgraphGen.Graph.AddNode` | subgraph.go:114-123 | `DuplicateLabel` exactly when the label is taken, and then nothing changes; otherwise exactly that label is added, mapped to a new node; validity is kept |
| `SubgraphGen.Graph.AddRel` | subgraph.go:125-142 | `NodeNotFound` exactly when either label is missing, and then nothing changes; otherwise exactly one relationship is appended, and its ends are the node objects stored under the two labels; the nodes are unchanged and validity is kept |
| `SubgraphGen.ConvertToAlphabetic` | subgraph.go:338-346 | the loop's result is the name `Enc(n)`, including "" for `n <= 0` |
| `SubgraphGen.Candidates` | subgraph.go:433-439 | the neighbour list holds exactly the graph's relationships with an end labelled like the start |
| `SubgraphGen.GetPath` | subgraph.go:419-460 | `StartNotFound` exactly when the start label is absent; for `length <= 1` exactly the start node; every success begins with the start node |
| `SubgraphGen.WalkCons` | subgraph.go:446-459 | a node and a relationship leading to the first node of a walk, put before that walk, make a walk |
| `SubgraphGen.GetPathIsWalk` | subgraph.go:419-460 | in a valid graph, a successful walk has `2*length-1` stops (one when `length <= 1`) and starts at the start node; it alternates graph nodes and graph relationships, and each relationship touches the label before it and leads to its far end |
| `SubgraphGen.GetPathSucceeds` | subgraph.go:441 | when every label has an incident relationship, the walk from an existing start never panics |
| `SubgraphGen.StepTarget` | subgraph.go:441-455 | from a node with an incident relationship, every draw takes a relationship and leads to a label of the graph |
| `SubgraphGen.GetPathDeadEnd` | subgraph.go:441 | leaving a node with no incident relationship is the `Intn(0)` panic |
| `SubgraphGen.PathQueryUnlabelledLast` | subgraph.go:394-400 | an unlabelled last stop adds nothing to the query |
| `SubgraphGen.NodeVarsDistinct` | subgraph.go:364-378 | different node stops of a path get different variables |
| `SubgraphGen.StopTextDirected` | subgraph.go:366-388 | on a walk, a relationship's text names first the variable of the neighbour labelled like its `from` end, then that of its `to` end, whichever way the walk crosses it; a star shows only on a reflexive relationship |
| `SubgraphGen.ReflexiveEnteredInversely` | subgraph.go:65-70 | a reflexive relationship on a walk is always entered inversely |
| `SubgraphGen.PathQueryForward` | subgraph.go:348-401 | the walk `A -of-> B` renders as `A(a), of(a,b), B(b)` |
| `SubgraphGen.PathQueryBackward` | subgraph.go:348-401 | the same relationship walked from `B` renders as `B(a), of(b,a), A(b)` |
| `SubgraphGen.StopTextBound` | subgraph.go:43-56 | once a stop's slots hold its neighbours' variables, its `StringRep` is its final text |
| `SubgraphGen.PathQueryEnd` | subgraph.go:394-400 | the texts collected by the loop, plus the last stop unless it is unlabelled, give the query |
| `SubgraphGen.BindStep` | subgraph.go:364-388 | a node takes the next variable in both slots, and it also goes into the predecessor's outward slot (its `from` slot when the predecessor was entered inversely); a relationship takes the current variable in the slot of the end it is entered from; the node counter advances only on nodes |
| `SubgraphGen.Visit` | subgraph.go:359-393 | one turn of the loop keeps the loop state: the texts of all earlier stops are collected, in order |
| `SubgraphGen.BindStops` | subgraph.go:354-393 | after the loop, every stop but the last has its final text collected and the last has its first slot bound |
| `SubgraphGen.PathString` | subgraph.go:348-401 | `Path.String` returns every stop's text once, in path order, with the empty ones dropped, joined by ", " (`""` for the empty path) |
| `SubgraphQueries.FreshTextOfSlots` | subgraph.go:258-267 | an element whose slots hold the names of its count renders as its text at that count |
| `SubgraphQueries.OffsetGrows` | subgraph.go:255-266 | the counter never goes back: a later element's count starts after the variables of an earlier one |
| `SubgraphQueries.FreshNamesCount` | subgraph.go:259-264 | a node takes one variable and a relationship two different ones |
| `SubgraphQueries.NamesApart` | subgraph.go:259-266 | elements counted from ranges that do not overlap get disjoint variables |
| `SubgraphQueries.NameApart` | subgraph.go:259-266 | the variable of an earlier count is not among those of an element counted later |
| `SubgraphQueries.AllDifferent` | subgraph.go:252-271 | no two selected elements share a variable in `AllDifferentQuery`, in any visiting order |
| `SubgraphQueries.UsedNamesCover` | subgraph.go:255-266 | the counter leaves no gap: the first `i` elements use the name of every count from 1 to the counter's value |
| `SubgraphQueries.UsedNamesWithin` | subgraph.go:255-266 | the first `i` elements use no name beyond those of the counts 1 to the counter's value |
| `SubgraphQueries.FreshNamesDecode` | subgraph.go:259-264 | an element visited at count `off` is named by the counts just after `off`, one for a node and two for a relationship |
| `SubgraphQueries.OffsetCounts` | subgraph.go:257-266 | after `i` elements the counter is the number of nodes among them plus twice the number of relationships |
| `SubgraphQueries.AllDifferentRange` | subgraph.go:252-271 | `AllDifferentQuery` uses exactly the names `Enc(1)` to `Enc(n)`, `n` being the number of selected nodes plus twice the number of selected relationships, in any visiting order |
| `SubgraphQueries.JoinedTextOfSlots` | subgraph.go:306-323 | an element whose slots hold the numbers of its labels renders as its joined text |
| `SubgraphQueries.StepNumbered` | subgraph.go:298-322 | one element keeps the numbering injective and below `innerCount` and never renumbers a label; afterwards the element's labels carry the numbers it used, except the `from` end of a reflexive relationship on an unseen label |
| `SubgraphQueries.PutNumbered` | subgraph.go:302-304 | numbering an unseen label with `innerCount` keeps the numbering injective and every other label's number |
| `SubgraphQueries.JoinsBeforeNumbered` | subgraph.go:295-325 | at every point of the visit, numbers are positive, below `innerCount` and never shared by two labels |
| `SubgraphQueries.JoinsKeep` | subgraph.go:300-319 | once a label has a number it keeps it for the rest of the visit |
| `SubgraphQueries.NodeJoinsLater` | subgraph.go:299-306 | after a node is visited, every later element mentioning its label uses the node's number |
| `SubgraphQueries.SameLabelJoined` | subgraph.go:299-306 | two nodes with the same label get the same variable |
| `SubgraphQueries.DifferentLabelsApart` | subgraph.go:299-306 | two nodes with different labels get different variables |
| `SubgraphQueries.ReflexiveUnseenSplits` | subgraph.go:307-321 | a reflexive relationship on an unseen label uses two different variables, and the label keeps the second |
| `SubgraphGrowth.NodesOfKeys` | subgraph.go:245 | `current.Nodes` maps each label to a selected node with that label, and holds the label of every selected node |
| `SubgraphGrowth.RelsOfMembers` | subgraph.go:247 | `current.Edges` holds exactly the selected relationships |
| `SubgraphGrowth.Subgraph.constructor` | subgraph.go:151-170 | a new subgraph of a valid graph has nothing selected and an empty `current` |
| `SubgraphGrowth.Subgraph.AddNode` | subgraph.go:202-205 | the node is selected at the next index and stored under its label in `current` |
| `SubgraphGrowth.Subgraph.NodeHits` | subgraph.go:179-183 | the inner loop adds the node at least once exactly when a selected relationship ends at its label |
| `SubgraphGrowth.Subgraph.EdgeHits` | subgraph.go:192-196 | the inner loop adds the relationship at least once exactly when a selected node carries one of its end labels |
| `SubgraphGrowth.Subgraph.NodeNeighbours` | subgraph.go:173-184 | the first loop yields only unselected nodes next to the selection, and all of them |
| `SubgraphGrowth.Subgraph.EdgeNeighbours` | subgraph.go:186-197 | the second loop yields only unselected relationships next to the selection, and all of them |
| `SubgraphGrowth.Subgraph.Neighbourhood` | subgraph.go:172-200 | each element once; the elements are exactly the unselected ones next to the selection: nodes that a selected relationship ends at, and relationships with an end labelled like a selected node |
| `SubgraphGrowth.Subgraph.Everything` | subgraph.go:225-230 | the fallback list holds every parent relationship and every parent node, each exactly once, and nothing else |
| `SubgraphGrowth.Subgraph.RandomGrow` | subgraph.go:207-249 | nothing changes exactly when the neighbourhood is empty and the selection complete (`Full`) or started (`Stuck`, the panic); otherwise exactly one new parent element is selected at the next index, and it is a neighbour unless nothing was selected; it also goes into `current`; validity is kept |
| `SubgraphGrowth.CompleteSelectsAll` | subgraph.go:218 | a selection as large as the parent holds every parent node and relationship |
| `SubgraphGrowth.CompleteIsEnclosed` | subgraph.go:216-221 | a complete selection has an empty neighbourhood |
| `SubgraphGrowth.NoRelationshipsStuck` | subgraph.go:235 | in a schema without relationships, a started but incomplete selection reaches the panic |
| `SubgraphGrowth.Unselected` | subgraph.go:218 | a selection that fails the size test leaves some parent element unselected |
| `SubgraphGrowth.ExitIsCandidate` | subgraph.go:172-200 | an unselected element next to a selected one (a node at an end of a selected relationship, or a relationship touching a selected node's label) is in the neighbourhood |
| `SubgraphGrowth.ConnectedNotEnclosed` | subgraph.go:207-235 | over a connected schema, a started but incomplete selection has a non-empty neighbourhood, so `RandomGrow` never reaches the `Intn(0)` panic |
| `SubgraphGrowth.Subgraph.GrowTimes` | subgraph.go:207-249 | over a connected schema, `k` calls of `RandomGrow` from a started selection add one element each until all `N + M` are selected and change nothing after; from `GetSubGraphStartingNode`, `N + M - 1` calls select every node and relationship, each once |
| `SubgraphGrowth.AssignFresh` | subgraph.go:258-266 | a node gets the next variable and a relationship the next two; the counter advances by as many |
| `SubgraphGrowth.VisitFresh` | subgraph.go:257-268 | one pass keeps the counter, the collected texts and all earlier elements' slots as the specification says |
| `SubgraphGrowth.Subgraph.AllDifferentQuery` | subgraph.go:252-271 | for any visiting order, the result is the joined non-empty texts, each element numbered from the variables used before it, and every slot holds its own variable |
| `SubgraphGrowth.AssignJoined` | subgraph.go:298-322 | the element's slots get the numbers of its labels (both ends looked up before either is numbered), and the numbering advances by one step |
| `SubgraphGrowth.VisitJoined` | subgraph.go:297-324 | one pass keeps the numbering, the collected texts and all earlier elements' slots as the specification says |
| `SubgraphGrowth.Subgraph.MaximallyJoined` | subgraph.go:290-328 | for any visiting order, the result is the joined non-empty texts, with labels numbered in first-seen order |
| `SubgraphGrowth.Subgraph.GetNthElement` | subgraph.go:273-287 | an error exactly when the index exceeds the selection size; otherwise the element selected at that index, or none for a negative index or one equal to the size |
| `SubgraphGrowth.IndexOf` | subgraph.go:280-284 | the index the order gives a selected element is a position holding it |
| `SubgraphGrowth.GetSubGraphStartingNode` | subgraph.go:407-417 | an error exactly when the label is absent; otherwise a subgraph whose only selected element is that node at index 0 |
| `NpqGen.Node.constructor` | npqgen.go:130-134 | the address of a copy of a node value holds that value |
| `NpqGen.Relationship.constructor` | npqgen.go:297 | the address of a copy of a relationship value holds that value |
| `NpqGen.Waypoint.GetMode` | npqgen.go:60-65 | a relationship is `RelType` iff its predecessor's label is that of its `from` end, and `RelInv` otherwise; a node is `UnLabel` iff it is unlabelled |
| `NpqGen.ReflexiveIsForward` | npqgen.go:60-65 | a reflexive relationship reached from its node is always `RelType` |
| `NpqGen.Waypoint.SetLabelFrom` | npqgen.go:57 | writes the `varFrom` slot and leaves `varTo` alone |
| `NpqGen.Waypoint.SetLabelTo` | npqgen.go:58 | writes the `varTo` slot and leaves `varFrom` alone |
| `NpqGen.AppendRel` | npqgen.go:130-135 | appending a relationship whose ends are new copies keeps every end label stored and no node object shared between ends |
| `NpqGen.Graph.constructor` | npqgen.go:104-107 | the empty graph is valid |
| `NpqGen.Graph.AddNode` | npqgen.go:109-118 | `DuplicateLabel` exactly when the label is taken, and then nothing changes; otherwise exactly that label is added, mapped to the node value |
| `NpqGen.Graph.AddRel` | npqgen.go:120-137 | `NodeNotFound` exactly when either label is missing, and then nothing changes; otherwise exactly one relationship is appended, its ends being two distinct fresh copies of the stored node values, so writing their slots never touches the map |
| `NpqGen.Convert` | npqgen.go:143-151 | the loop prepends the name of the remaining count to the letters already produced |
| `NpqGen.ConvertToAlphabetic` | npqgen.go:143-151 | the result is the name `Enc(n)`, including "" for `n <= 0` |
| `NpqGen.Candidates` | npqgen.go:282-288 | the neighbour list holds exactly the relationships with an end labelled like the start |
| `NpqGen.Plan` | npqgen.go:268-307 | `StartNotFound` exactly when the start label is absent; for `length <= 1` exactly the start node; every success begins with the start node |
| `NpqGen.WalkCons` | npqgen.go:297-306 | a node and a relationship leading to the first node of a walk, put before that walk, make a walk |
| `NpqGen.PlanIsWalk` | npqgen.go:268-307 | in a valid graph, a successful walk has `2*length-1` stops (one when `length <= 1`); it alternates stored nodes and relationships, and each relationship touches the label before it and leads to its far end |
| `NpqGen.PlanDeadEnd` | npqgen.go:293 | leaving a node with no incident relationship is the `Intn(0)` panic |
| `NpqGen.PlanStep` | npqgen.go:295-306 | a walk of more than one hop is the start node followed by the chosen relationship and the walk from its far end |
| `NpqGen.Address` | npqgen.go:276 | `&startNode` is a new object holding the visited value |
| `NpqGen.Neighbours` | npqgen.go:282-288 | the neighbour loop computes exactly `Candidates` |
| `NpqGen.GetPath` | npqgen.go:268-307 | fails exactly as `Plan` does; a success holds, stop by stop, fresh objects with `Plan`'s values, none shared |
| `NpqGen.Continue` | npqgen.go:293-306 | after the draw, the relationship copy followed by the walk from its far end has the planned values, in fresh unshared objects |
| `NpqGen.CollectedRelTexts` | npqgen.go:164-196 | over the loop, the texts collected are the first stop and then the relationship before each later node |
| `NpqGen.Render` | npqgen.go:164-196 | one turn of the loop keeps its state: the counter counts the nodes so far, the slot of the latest stop is bound, and the texts are collected |
| `NpqGen.RenderNode` | npqgen.go:169-183 | a node takes the next variable, the stop before it is closed with that variable and its text is appended |
| `NpqGen.RenderRel` | npqgen.go:184-187 | a relationship takes the current variable in the slot of the end it is entered from |
| `NpqGen.ClosePrev` | npqgen.go:175-179 | the new variable goes into the predecessor's `from` slot when it was entered inversely, its `to` slot otherwise, and its other slot keeps its variable |
| `NpqGen.NodeVisited` | npqgen.go:169-183 | after a node, the predecessor is bound on both sides and its final text is collected |
| `NpqGen.RelRendered` | npqgen.go:181 | a relationship bound on both sides renders as its final text |
| `NpqGen.RelVisited` | npqgen.go:184-187 | after a relationship, its entry slot holds the current variable |
| `NpqGen.Finished` | npqgen.go:197-199 | after the loop, the collected texts (plus the last stop when it is `NodeType`) are the query's parts |
| `NpqGen.BindAll` | npqgen.go:159-196 | the loop visits every stop: the last stop is `prev`, and the collected texts are the first stop's followed by every relationship's |
| `NpqGen.PathString` | npqgen.go:153-202 | `Path.String` returns `""` for the empty path; otherwise the first stop, every relationship and the last stop unless it is unlabelled, joined by ", ", without dropping empty texts; the k-th node stop is named `Enc(k)` |
| `NpqGen.WalkLinked` | npqgen.go:268-307 | the objects of a walk form a path `Path.String` accepts, each relationship linking its neighbours' labels |
| `NpqGen.StopTextDirected` | npqgen.go:168-187 | on a linked path, a relationship's text names first the neighbour labelled like its `from` end |
| `NpqGen.SingleStop` | npqgen.go:164-199 | a one-stop path with a labelled node renders it twice: `A(a), A(a)` |
| `NpqGen.SingleUnlabelledStop` | npqgen.go:164-199 | a one-stop path with an unlabelled node renders as `""` |
| `NpqGen.TwoHops` | npqgen.go:153-202 | the walk `A -of-> B -has-> C` renders as `A(a), of(a,b), has(b,c), C(c)`: the middle node shows only as its variable |

## Left out

- The command line in `main` (flag parsing, usage text, `os.Exit`, printing) is I/O, and so is the trace `fmt.Println` inside subgraph.go's `Path.String`.
- `GetManualRep` is a fixed schema built by `AddNode`/`AddRel` calls. The lemmas `PathQueryForward`, `PathQueryBackward` and `TwoHops` use small schemas of their own instead.
- The random source (`r1`, `rand.NewSource(time.Now()…)`) is left out. Each draw is an input, as described above, and no claim about probabilities is made.
- `removeDuplicate` is not part of this model. `Collections.Dedup` stands for it: its contracts fix the elements kept, not their order.
- The `properties` maps, the `parentCache` that `GetSubGraph` fills but nothing reads, `AmWayPoint`, the `String()` debug methods and `Graph.GetSubGraph` are left out. `GetSubGraph` itself is the forwarder of the `Subgraph` constructor.
- `GetLabel` is `Waypoint.Label`, and `Path.Merge` is the sequence concatenation inside `GetPath`. Neither has a contract of its own.
- `StringRep` of either file is a function of the current slots (`Waypoint.StringRep`). Its results are stated by `StopTextBound`, `FreshTextOfSlots`, `JoinedTextOfSlots` and `RelRendered`.
- `fmt.Sprint` is plain concatenation of the label, parentheses, commas and variables.
- `SubgraphGen.PathString`: only paths that alternate node, relationship, …, node are covered, which is every path `GetPath` builds. A path that starts with a relationship reads the typed-nil `prevPrev` of the source and panics.
- `NpqGen.PathString`: likewise, only alternating paths are covered, and their stops must be distinct objects (as `GetPath` guarantees). The source's `prevPrev != nil` tests compare an interface holding a nil pointer with nil, so they never fail; `prevPrev` is `None` at first here, and those tests are left out.
- `SubgraphGen.PathString`: the binding slots it leaves behind are not stated, only the text it returns. In subgraph.go the stops are the graph's own shared node and relationship objects, so these writes outlive the call. A walk that visits an object twice overwrites what the earlier visit wrote into it.
- `NpqGen.PathString`: likewise, the slot values it leaves behind are not stated. In npqgen.go the stops are the fresh copies that `GetPath` makes, and nothing else holds them.
- `NpqGen.Waypoint.GetMode`: a relationship needs a predecessor, because the source reads its label without a nil check.
- Counters are unbounded integers. Go's 64-bit `int` cannot overflow at the sizes these loops reach.
- The initial binding slots of a copied node value are whatever the value holds. Rendering overwrites every slot it reads.
