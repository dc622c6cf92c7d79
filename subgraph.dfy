/** The query generator of subgraph.go: a schema graph whose relationships
    share the node objects stored in its map, a random walk over it, the
    path renderer, and the randomly grown subgraph with its two renderers. */
module SubgraphGen {
  import opened Wrappers
  import opened Strings
  import opened Letters

  // ---------------------------------------------------------------------
  // Schema entities
  // ---------------------------------------------------------------------

  /** A schema node. Its label and the unlabelled flag never change; the two
      binding slots are scratch state written by the renderers. */
  class Node {
    /** The label: the node's unique key in a graph. */
    const name: string
    /** Marks a node a path passes through without naming it in the query. */
    const unlabelled: bool
    var varFrom: string
    var varTo: string

    constructor (name: string, unlabelled: bool)
      ensures this.name == name && this.unlabelled == unlabelled
      ensures varFrom == "" && varTo == ""
    {
      this.name := name;
      this.unlabelled := unlabelled;
      varFrom := "";
      varTo := "";
    }
  }

  /** A directed, labelled schema relationship. `from` and `to` are
      references to node objects, never copies. */
  class Relationship {
    const name: string
    const from: Node
    const to: Node
    var varFrom: string
    var varTo: string

    constructor (name: string, from: Node, to: Node)
      ensures this.name == name && this.from == from && this.to == to
      ensures varFrom == "" && varTo == ""
    {
      this.name := name;
      this.from := from;
      this.to := to;
      varFrom := "";
      varTo := "";
    }

    /** Both endpoints carry the same label: the relationship touches one
        label only, and a walk that takes it comes back to where it was. */
    predicate Reflexive(): (b: bool)
      ensures b <==> forall l | Touches(this, l) :: l == from.name
      ensures b <==> Far(this, from.name) == from.name && Far(this, to.name) == to.name
    {
      assert Touches(this, to.name);
      from.name == to.name
    }
  }

  /** `RelInv`: a relationship entered from its `to` end. */
  datatype Mode = NodeType | UnLabel | RelType | RelInv

  /** One stop of a path or one selected element of a subgraph. */
  datatype Waypoint = N(node: Node) | R(rel: Relationship)
  {
    function Label(): string
    {
      if N? then node.name else rel.name
    }

    function Obj(): object
    {
      if N? then node else rel
    }

    /** `GetMode`: how this waypoint relates to the waypoint before it, if
        any. A relationship is inverse exactly when the predecessor's label
        is the label of its `to` end. */
    function GetMode(prev: Option<Waypoint>): (m: Mode)
      ensures N? ==> (m == UnLabel <==> node.unlabelled) && (m == NodeType <==> !node.unlabelled)
      ensures R? ==> (m == RelInv <==> prev.Some? && prev.value.Label() == rel.to.name)
      ensures R? ==> (m == RelType <==> !(prev.Some? && prev.value.Label() == rel.to.name))
    {
      match this
      case N(n) => if n.unlabelled then UnLabel else NodeType
      case R(r) => if prev.Some? && prev.value.Label() == r.to.name then RelInv else RelType
    }

    /** `StringRep` with the current binding slots. `star` is the random
        draw of the source; it shows only on a reflexive relationship. */
    function StringRep(star: bool): string
      reads Obj()
    {
      match this
      case N(n) => NodeText(n.name, n.unlabelled, n.varFrom)
      case R(r) => RelText(r.name, star && r.Reflexive(), r.varFrom, r.varTo)
    }

    method SetLabelFrom(v: string)
      modifies Obj()
      ensures N? ==> node.varFrom == v && node.varTo == old(node.varTo)
      ensures R? ==> rel.varFrom == v && rel.varTo == old(rel.varTo)
    {
      match this
      case N(n) => n.varFrom := v;
      case R(r) => r.varFrom := v;
    }

    method SetLabelTo(v: string)
      modifies Obj()
      ensures N? ==> node.varTo == v && node.varFrom == old(node.varFrom)
      ensures R? ==> rel.varTo == v && rel.varFrom == old(rel.varFrom)
    {
      match this
      case N(n) => n.varTo := v;
      case R(r) => r.varTo := v;
    }
  }

  /** The text of a node: `label(var)`, or nothing for an unlabelled node. */
  function NodeText(name: string, unlabelled: bool, v: string): string
  {
    if unlabelled then "" else name + "(" + v + ")"
  }

  /** The text of a relationship: `label(from,to)` or `label*(from,to)`. */
  function RelText(name: string, star: bool, f: string, t: string): string
  {
    name + (if star then "*" else "") + "(" + f + "," + t + ")"
  }

  /** The objects behind a sequence of waypoints. */
  function Objects(ws: seq<Waypoint>): set<object>
  {
    set i | 0 <= i < |ws| :: ws[i].Obj()
  }

  /** Does relationship `e` have an endpoint labelled `l`? */
  predicate Touches(e: Relationship, l: string)
  {
    e.from.name == l || e.to.name == l
  }

  /** The endpoint label a walk moves to when it takes `e` from a node
      labelled `l`: `from` if `l` is the label of `to`, else `to`. */
  function Far(e: Relationship, l: string): string
  {
    if e.to.name == l then e.from.name else e.to.name
  }

  // ---------------------------------------------------------------------
  // The schema graph
  // ---------------------------------------------------------------------

  datatype GraphError = DuplicateLabel | NodeNotFound

  /** The contents of a `Graph` value: a label-keyed node map and the list of
      relationships. */
  datatype GraphVal = GraphVal(nodes: map<string, Node>, edges: seq<Relationship>)
  {
    /** What `AddNode`/`AddRel` maintain: each node is stored under its own
        label, each relationship's endpoints are the very node objects stored
        under their labels, and no relationship object is listed twice. */
    ghost predicate Valid()
    {
      && (forall l | l in nodes :: nodes[l].name == l)
      && (forall e | e in edges ::
            && e.from.name in nodes && nodes[e.from.name] == e.from
            && e.to.name in nodes && nodes[e.to.name] == e.to)
      && (forall i, j | 0 <= i < j < |edges| :: edges[i] != edges[j])
    }

    /** Every relationship's endpoints are labels of this graph; implied by
        `Valid`. */
    ghost predicate Closed()
    {
      forall e | e in edges :: e.from.name in nodes && e.to.name in nodes
    }

    /** `w` is one of this graph's nodes or relationships. */
    ghost predicate Has(w: Waypoint)
    {
      match w
      case N(n) => n.name in nodes && nodes[n.name] == n
      case R(e) => e in edges
    }
  }

  class Graph {
    var nodes: map<string, Node>
    var edges: seq<Relationship>

    function View(): GraphVal
      reads this
    {
      GraphVal(nodes, edges)
    }

    ghost predicate Valid()
      reads this
    {
      View().Valid()
    }

    constructor ()
      ensures nodes == map[] && edges == [] && Valid()
    {
      nodes := map[];
      edges := [];
    }

    /** `Graph.AddNode`: store a new node under its label, or fail with
        `DuplicateLabel`, changing nothing, when the label is taken. */
    method AddNode(name: string, unlabelled: bool) returns (err: Option<GraphError>)
      requires Valid()
      modifies this
      ensures Valid() && edges == old(edges)
      ensures err == (if name in old(nodes) then Some(DuplicateLabel) else None)
      ensures err.Some? ==> nodes == old(nodes)
      ensures err.None? ==>
                && name in nodes && fresh(nodes[name])
                && nodes[name].unlabelled == unlabelled
                && nodes == old(nodes)[name := nodes[name]]
    {
      if name in nodes {
        return Some(DuplicateLabel);
      }
      var n := new Node(name, unlabelled);
      nodes := nodes[name := n];
      return None;
    }

    /** `Graph.AddRel`: append one relationship whose endpoints are the node
        objects stored under `from` and `to`, or fail with `NodeNotFound`,
        changing nothing, when either label is missing. */
    method AddRel(name: string, from: string, to: string) returns (err: Option<GraphError>)
      requires Valid()
      modifies this
      ensures Valid() && nodes == old(nodes)
      ensures err == (if from !in nodes || to !in nodes then Some(NodeNotFound) else None)
      ensures err.Some? ==> edges == old(edges)
      ensures err.None? ==>
                && |edges| == |old(edges)| + 1 && edges[..|old(edges)|] == old(edges)
                && var e := edges[|old(edges)|];
                   fresh(e) && e.name == name && e.from == nodes[from] && e.to == nodes[to]
    {
      if from !in nodes || to !in nodes {
        return Some(NodeNotFound);
      }
      var e := new Relationship(name, nodes[from], nodes[to]);
      edges := edges + [e];
      return None;
    }
  }

  // ---------------------------------------------------------------------
  // The letter encoder
  // ---------------------------------------------------------------------

  /** `convertToAlphabetic`: prepend one letter per base-26 digit. */
  method ConvertToAlphabetic(n: int) returns (result: string)
    ensures result == Enc(n)
  {
    result := "";
    var m := n;
    while m > 0
      invariant Enc(n) == Enc(m) + result
      decreases m
    {
      var mod := (m - 1) % 26;
      result := [Digit(mod)] + result;
      assert (m - mod) / 26 == (m - 1) / 26;
      m := (m - mod) / 26;
    }
  }

  // ---------------------------------------------------------------------
  // The random walk
  // ---------------------------------------------------------------------

  /** `NoIncidentEdge` stands for the panic of `Intn(0)` when the walk must go
      on from a node that no relationship touches. */
  datatype PathError = StartNotFound | NoIncidentEdge

  /** The relationships with an endpoint labelled `start`, in list order. */
  function Candidates(edges: seq<Relationship>, start: string): (r: seq<Relationship>)
    ensures forall e | e in r :: e in edges && Touches(e, start)
    ensures forall e | e in edges && Touches(e, start) :: e in r
  {
    if |edges| == 0 then []
    else (if Touches(edges[0], start) then [edges[0]] else []) + Candidates(edges[1..], start)
  }

  /** `Graph.GetPath`: start at the node labelled `start`; while hops remain,
      take a relationship touching the current label and move to its far
      end. The random index of hop k is `picks[k] % |candidates|`, so every
      outcome of the random draw is some choice of `picks`. The error of the
      recursive call is discarded as in the source (an empty remainder is
      merged); GetPathIsWalk shows it cannot arise in a valid graph. */
  function GetPath(g: GraphVal, length: int, start: string, picks: seq<nat>): (r: Result<seq<Waypoint>, PathError>)
    requires length <= 1 || |picks| >= length - 1
    ensures (r == Failure(StartNotFound)) <==> start !in g.nodes
    ensures start in g.nodes && length <= 1 ==> r == Success([N(g.nodes[start])])
    ensures r.Success? ==> |r.value| >= 1 && start in g.nodes && r.value[0] == N(g.nodes[start])
    decreases length
  {
    if start !in g.nodes then Failure(StartNotFound)
    else if length <= 1 then Success([N(g.nodes[start])])
    else
      var cands := Candidates(g.edges, start);
      if |cands| == 0 then Failure(NoIncidentEdge)
      else
        var rel := cands[picks[0] % |cands|];
        var head := [N(g.nodes[start]), R(rel)];
        match GetPath(g, length - 1, Far(rel, start), picks[1..])
        case Success(rest) => Success(head + rest)
        case Failure(StartNotFound) => Success(head)
        case Failure(NoIncidentEdge) => Failure(NoIncidentEdge)
  }

  /** A walk in `g`: nodes of `g` at even positions, relationships of `g` at
      odd ones, each touching the label of the node before it and followed by
      the node at its far end. */
  ghost predicate IsWalk(g: GraphVal, p: seq<Waypoint>)
  {
    && |p| % 2 == 1
    && (forall i | 0 <= i < |p| :: p[i].N? <==> i % 2 == 0)
    && (forall i | 0 <= i < |p| && p[i].N? :: g.Has(p[i]))
    && (forall i | 0 < i < |p| - 1 && p[i].R? ::
          && p[i].rel in g.edges
          && Touches(p[i].rel, p[i - 1].Label())
          && p[i + 1].Label() == Far(p[i].rel, p[i - 1].Label()))
  }

  /** Prefixing a walk with a node and a relationship that leads to the
      walk's first node gives a walk. */
  lemma WalkCons(g: GraphVal, n: Node, rel: Relationship, rest: seq<Waypoint>)
    requires IsWalk(g, rest) && g.Has(N(n)) && rel in g.edges
    requires Touches(rel, n.name) && rest[0].Label() == Far(rel, n.name)
    ensures IsWalk(g, [N(n), R(rel)] + rest)
  {
    var p := [N(n), R(rel)] + rest;
    forall i | 0 <= i < |p| ensures p[i].N? <==> i % 2 == 0 {
      if i >= 2 {
        assert p[i] == rest[i - 2];
      }
    }
    forall i | 0 <= i < |p| && p[i].N? ensures g.Has(p[i]) {
      if i >= 2 {
        assert p[i] == rest[i - 2];
      }
    }
    forall i | 0 < i < |p| - 1 && p[i].R?
      ensures && p[i].rel in g.edges
              && Touches(p[i].rel, p[i - 1].Label())
              && p[i + 1].Label() == Far(p[i].rel, p[i - 1].Label())
    {
      if i >= 2 {
        assert p[i - 1] == rest[i - 3] && p[i] == rest[i - 2] && p[i + 1] == rest[i - 1];
      }
    }
  }

  /** In a valid graph a successful walk of `length` hops has `2*length-1`
      stops (one when `length <= 1`), starts at the start node and is a walk. */
  lemma {:induction false} GetPathIsWalk(g: GraphVal, length: int, start: string, picks: seq<nat>)
    requires g.Valid()
    requires length <= 1 || |picks| >= length - 1
    requires GetPath(g, length, start, picks).Success?
    ensures var p := GetPath(g, length, start, picks).value;
            && IsWalk(g, p)
            && |p| == (if length <= 1 then 1 else 2 * length - 1)
            && p[0] == N(g.nodes[start])
    decreases length
  {
    if length > 1 {
      var cands := Candidates(g.edges, start);
      var rel := cands[picks[0] % |cands|];
      var next := Far(rel, start);
      assert rel in cands;
      assert next in g.nodes;
      GetPathIsWalk(g, length - 1, next, picks[1..]);
      var rest := GetPath(g, length - 1, next, picks[1..]).value;
      WalkCons(g, g.nodes[start], rel, rest);
    }
  }

  /** Some relationship of `edges` touches the label `l`. */
  ghost predicate Incident(edges: seq<Relationship>, l: string)
  {
    exists e | e in edges :: Touches(e, l)
  }

  /** When every node of a graph has a relationship touching it (and every
      relationship ends in the graph, as in a valid one), the walk from an
      existing start never reaches the panic. */
  lemma {:induction false} GetPathSucceeds(g: GraphVal, length: int, start: string, picks: seq<nat>)
    requires g.Closed() && start in g.nodes
    requires length <= 1 || |picks| >= length - 1
    requires forall l {:trigger Incident(g.edges, l)} | l in g.nodes :: Incident(g.edges, l)
    ensures GetPath(g, length, start, picks).Success?
    decreases length
  {
    if length > 1 {
      assert Incident(g.edges, start);
      StepTarget(g, start, picks[0]);
      var cands := Candidates(g.edges, start);
      GetPathSucceeds(g, length - 1, Far(cands[picks[0] % |cands|], start), picks[1..]);
    }
  }

  /** From a node that some relationship touches, every pick leads along a
      relationship of the graph to a node of the graph. */
  lemma StepTarget(g: GraphVal, start: string, pick: nat)
    requires g.Closed() && start in g.nodes && Incident(g.edges, start)
    ensures |Candidates(g.edges, start)| > 0
    ensures Far(Candidates(g.edges, start)[pick % |Candidates(g.edges, start)|], start) in g.nodes
  {
    var e :| e in g.edges && Touches(e, start);
    var cands := Candidates(g.edges, start);
    assert e in cands;
    var rel := cands[pick % |cands|];
    assert rel in cands;
  }

  /** The walk fails, as the source panics, when it must leave a node that
      no relationship touches. */
  lemma GetPathDeadEnd(g: GraphVal, length: int, start: string, picks: seq<nat>)
    requires start in g.nodes && length > 1 && |picks| >= length - 1
    requires forall e | e in g.edges :: !Touches(e, start)
    ensures GetPath(g, length, start, picks) == Failure(NoIncidentEdge)
  {
    var cands := Candidates(g.edges, start);
    assert forall i | 0 <= i < |cands| :: cands[i] in cands;
  }

  // ---------------------------------------------------------------------
  // Rendering a path
  // ---------------------------------------------------------------------

  /** The shape of every path `GetPath` builds: empty, or nodes at even
      positions and relationships at odd ones, first and last a node. */
  predicate IsPath(stops: seq<Waypoint>)
  {
    |stops| == 0 || (|stops| % 2 == 1 && forall i | 0 <= i < |stops| :: stops[i].N? <==> i % 2 == 0)
  }

  lemma WalkIsPath(g: GraphVal, p: seq<Waypoint>)
    requires IsWalk(g, p)
    ensures IsPath(p)
  {
  }

  /** The variable of the node stop at position `i`: the `i/2+1`-th node
      stop, unlabelled ones counted, gets the `(i/2+1)`-th name. */
  function NodeVar(i: nat): string
  {
    Enc(i / 2 + 1)
  }

  /** The text a stop contributes: a node its own variable, a relationship
      the variables of its neighbours, the predecessor's first unless the
      relationship is entered from its `to` end. */
  function StopText(stops: seq<Waypoint>, stars: seq<bool>, i: nat): string
    requires IsPath(stops) && |stars| == |stops| && i < |stops|
  {
    match stops[i]
    case N(n) => NodeText(n.name, n.unlabelled, NodeVar(i))
    case R(r) =>
      var star := stars[i] && r.Reflexive();
      if stops[i].GetMode(Some(stops[i - 1])) == RelInv
      then RelText(r.name, star, NodeVar(i + 1), NodeVar(i - 1))
      else RelText(r.name, star, NodeVar(i - 1), NodeVar(i + 1))
  }

  function StopTexts(stops: seq<Waypoint>, stars: seq<bool>): (r: seq<string>)
    requires IsPath(stops) && |stars| == |stops|
    ensures |r| == |stops|
  {
    seq(|stops|, i requires 0 <= i < |stops| => StopText(stops, stars, i))
  }

  /** The texts of the first `n` stops. */
  function StopTextsUpTo(stops: seq<Waypoint>, stars: seq<bool>, n: nat): (r: seq<string>)
    requires IsPath(stops) && |stars| == |stops| && n <= |stops|
    ensures |r| == n
  {
    if n == 0 then [] else StopTextsUpTo(stops, stars, n - 1) + [StopText(stops, stars, n - 1)]
  }

  lemma {:induction false} StopTextsUpToPrefix(stops: seq<Waypoint>, stars: seq<bool>, n: nat)
    requires IsPath(stops) && |stars| == |stops| && n <= |stops|
    ensures StopTextsUpTo(stops, stars, n) == StopTexts(stops, stars)[..n]
  {
    if n > 0 {
      StopTextsUpToPrefix(stops, stars, n - 1);
    }
  }

  lemma PathQueryAllStops(stops: seq<Waypoint>, stars: seq<bool>)
    requires IsPath(stops) && |stars| == |stops|
    ensures PathQuery(stops, stars) == Join(DropEmpty(StopTextsUpTo(stops, stars, |stops|)), ", ")
  {
    StopTextsUpToPrefix(stops, stars, |stops|);
    assert StopTexts(stops, stars)[..|stops|] == StopTexts(stops, stars);
  }

  /** An unlabelled last stop adds nothing to the query. */
  lemma PathQueryUnlabelledLast(stops: seq<Waypoint>, stars: seq<bool>)
    requires IsPath(stops) && |stars| == |stops| && |stops| > 0
    requires stops[|stops| - 1].node.unlabelled
    ensures PathQuery(stops, stars) == Join(DropEmpty(StopTextsUpTo(stops, stars, |stops| - 1)), ", ")
  {
    var n := |stops|;
    assert stops[n - 1].N?;
    assert StopText(stops, stars, n - 1) == "";
    PathQueryAllStops(stops, stars);
    var before := StopTextsUpTo(stops, stars, n - 1);
    assert StopTextsUpTo(stops, stars, n) == before + [""];
    DropEmptyAppend(before, [""]);
    assert DropEmpty([""]) == [];
    assert DropEmpty(before) + [] == DropEmpty(before);
  }

  /** What `Path.String` returns: every stop's text once, in order, the
      empty ones dropped, joined by ", ". */
  function PathQuery(stops: seq<Waypoint>, stars: seq<bool>): string
    requires IsPath(stops) && |stars| == |stops|
  {
    Join(DropEmpty(StopTexts(stops, stars)), ", ")
  }

  /** Different node stops get different variables. */
  lemma NodeVarsDistinct(stops: seq<Waypoint>, i: nat, j: nat)
    requires IsPath(stops) && i < j < |stops| && stops[i].N? && stops[j].N?
    ensures NodeVar(i) != NodeVar(j)
  {
    assert i % 2 == 0 && j % 2 == 0;
    EncInjective(i / 2 + 1, j / 2 + 1);
  }

  /** On a walk the text of a relationship names its ends in its own
      direction: the variable in its `from` slot is that of the neighbouring
      stop labelled like its `from` end, the one in its `to` slot that of the
      neighbour labelled like its `to` end, whichever way the walk crossed
      it. */
  lemma StopTextDirected(g: GraphVal, p: seq<Waypoint>, stars: seq<bool>, i: nat)
    requires IsWalk(g, p) && |stars| == |p| && 0 < i < |p| - 1 && p[i].R?
    ensures var e := p[i].rel;
            var (f, t) := if p[i].GetMode(Some(p[i - 1])) == RelInv then (i + 1, i - 1) else (i - 1, i + 1);
            && p[f].Label() == e.from.name && p[t].Label() == e.to.name
            && StopText(p, stars, i) == RelText(e.name, stars[i] && e.Reflexive(), NodeVar(f), NodeVar(t))
  {
    WalkIsPath(g, p);
  }

  /** A reflexive relationship is always entered from its `to` end, so its
      `from` slot takes the variable of the stop after it. */
  lemma ReflexiveEnteredInversely(g: GraphVal, p: seq<Waypoint>, i: nat)
    requires IsWalk(g, p) && 0 < i < |p| - 1 && p[i].R? && p[i].rel.Reflexive()
    ensures p[i].GetMode(Some(p[i - 1])) == RelInv
  {
  }

  /** The query of a one-hop path `A -of-> B` walked forwards. */
  lemma PathQueryForward(a: Node, r: Relationship, b: Node)
    requires a.name == "A" && b.name == "B" && r.name == "of" && r.from == a && r.to == b
    requires !a.unlabelled && !b.unlabelled
    ensures PathQuery([N(a), R(r), N(b)], [false, false, false]) == "A(a), of(a,b), B(b)"
  {
    EncExamples();
    var p, stars := [N(a), R(r), N(b)], [false, false, false];
    assert p[1].GetMode(Some(p[0])) == RelType;
    assert StopText(p, stars, 0) == "A(a)";
    assert StopText(p, stars, 1) == "of(a,b)";
    assert StopText(p, stars, 2) == "B(b)";
    ThreeParts(StopTexts(p, stars));
  }

  /** The same path walked backwards, from `B`: the relationship is entered
      from its `to` end and still names `A`'s variable first. */
  lemma PathQueryBackward(a: Node, r: Relationship, b: Node)
    requires a.name == "A" && b.name == "B" && r.name == "of" && r.from == a && r.to == b
    requires !a.unlabelled && !b.unlabelled
    ensures PathQuery([N(b), R(r), N(a)], [false, false, false]) == "B(a), of(b,a), A(b)"
  {
    EncExamples();
    var p, stars := [N(b), R(r), N(a)], [false, false, false];
    assert p[1].GetMode(Some(p[0])) == RelInv;
    assert StopText(p, stars, 0) == "B(a)";
    assert StopText(p, stars, 1) == "of(b,a)";
    assert StopText(p, stars, 2) == "A(b)";
    ThreeParts(StopTexts(p, stars));
  }

  /** Three non-empty texts are joined as they are. */
  lemma ThreeParts(parts: seq<string>)
    requires |parts| == 3 && parts[0] != "" && parts[1] != "" && parts[2] != ""
    ensures Join(DropEmpty(parts), ", ") == parts[0] + ", " + parts[1] + ", " + parts[2]
  {
    DropEmptyNoEmpty(parts);
    assert Join(parts[1..], ", ") == parts[1] + ", " + Join(parts[1..][1..], ", ");
    assert parts[1..][1..] == [parts[2]];
  }

  /** Consecutive stops of a path are one node and one relationship. */
  lemma PathAlternates(stops: seq<Waypoint>, i: nat)
    requires IsPath(stops) && 0 < i < |stops|
    ensures stops[i - 1].N? != stops[i].N?
  {
    assert stops[i - 1].N? <==> (i - 1) % 2 == 0;
    assert stops[i].N? <==> i % 2 == 0;
  }

  /** Both slots of stop `i` hold the names its text needs, `k` being the
      number of node stops up to `i`: a node its own name, a relationship
      the names of its neighbours, in the order it was entered. */
  ghost predicate Rendered(stops: seq<Waypoint>, i: nat, k: int)
    requires i < |stops|
    reads stops[i].Obj()
  {
    match stops[i]
    case N(n) => n.varFrom == Enc(k)
    case R(r) =>
      i > 0 ==>
        if stops[i].GetMode(Some(stops[i - 1])) == RelInv
        then r.varFrom == Enc(k + 1) && r.varTo == Enc(k)
        else r.varFrom == Enc(k) && r.varTo == Enc(k + 1)
  }

  /** Once the slots of stop `i` hold its neighbours' variables (`k` is the
      number of node stops up to and including position `i`, rounded down
      to the node before a relationship), its current text is the one
      PathQuery expects. */
  lemma StopTextBound(stops: seq<Waypoint>, stars: seq<bool>, i: nat, k: int)
    requires IsPath(stops) && |stars| == |stops| && i < |stops|
    requires i == 2 * (k - 1) || i == 2 * (k - 1) + 1
    requires Rendered(stops, i, k)
    ensures stops[i].StringRep(stars[i]) == StopText(stops, stars, i)
  {
    if stops[i].R? {
      NodeVarIs(i - 1, k);
      NodeVarIs(i + 1, k + 1);
    } else {
      NodeVarIs(i, k);
    }
  }

  /** The variable of the node stop at `i` as the `k`-th name. */
  lemma NodeVarIs(i: nat, k: int)
    requires i / 2 + 1 == k
    ensures NodeVar(i) == Enc(k)
  {
  }

  /** After the loop of `Path.String` the texts collected are those of all
      stops, or of all but an unlabelled last one: either way the query. */
  lemma PathQueryEnd(stops: seq<Waypoint>, stars: seq<bool>, elements: seq<string>)
    requires IsPath(stops) && |stars| == |stops| && |stops| > 0
    requires || elements == StopTextsUpTo(stops, stars, |stops|)
             || (stops[|stops| - 1].node.unlabelled && elements == StopTextsUpTo(stops, stars, |stops| - 1))
    ensures PathQuery(stops, stars) == Join(DropEmpty(elements), ", ")
  {
    if elements == StopTextsUpTo(stops, stars, |stops|) {
      PathQueryAllStops(stops, stars);
    } else {
      PathQueryUnlabelledLast(stops, stars);
    }
  }

  /** The `switch next.GetMode(prev)` of `Path.String`, for the step from
      stop `i - 1` (`prev`) into stop `i` (`next`): a node takes the next
      name in both its slots and in `prev`'s outward slot (its `from` slot
      when `prev` was entered inversely); a relationship takes the current
      name in the slot of the end it is entered from. Returns the new
      `lenSoFar`; afterwards `prev` has both slots bound. */
  method BindStep(stops: seq<Waypoint>, i: nat, prevPrev: Option<Waypoint>, lenSoFar: int)
    returns (count: int)
    requires IsPath(stops) && 1 <= i < |stops|
    requires prevPrev == if i == 1 then None else Some(stops[i - 2])
    requires i - 1 == 2 * (lenSoFar - 1) + (if stops[i - 1].R? then 1 else 0)
    requires Bound(stops, i - 1, prevPrev, lenSoFar)
    modifies stops[i - 1].Obj(), stops[i].Obj()
    ensures i == 2 * (count - 1) + (if stops[i].R? then 1 else 0)
    ensures Rendered(stops, i - 1, lenSoFar)
    ensures Bound(stops, i, Some(stops[i - 1]), count)
    ensures stops[i].N? ==> stops[i].node.varTo == Enc(count)
    ensures stops[i].R? ==> stops[i - 1].node.varTo == old(stops[i - 1].node.varTo)
    ensures stops[i].R? ==>
              if stops[i].GetMode(Some(stops[i - 1])) == RelInv
              then stops[i].rel.varFrom == old(stops[i].rel.varFrom)
              else stops[i].rel.varTo == old(stops[i].rel.varTo)
  {
    var prev, next := stops[i - 1], stops[i];
    PathAlternates(stops, i);
    count := lenSoFar;
    var prevVar := ConvertToAlphabetic(count);
    var mode := next.GetMode(Some(prev));
    if mode == NodeType || mode == UnLabel {
      count := count + 1;
      var nextVar := ConvertToAlphabetic(count);
      next.SetLabelFrom(nextVar);
      if prev.GetMode(prevPrev) == RelInv {
        prev.SetLabelFrom(nextVar);
      } else {
        prev.SetLabelTo(nextVar);
      }
      next.SetLabelTo(nextVar);
    } else if mode == RelType {
      next.SetLabelFrom(prevVar);
    } else {
      next.SetLabelTo(prevVar);
    }
  }

  /** The slot of stop `j` that the step into it bound holds the `k`-th
      name: a node's `from` slot, a relationship's `to` slot when it was
      entered inversely (after `before`) and its `from` slot otherwise. */
  ghost predicate Bound(stops: seq<Waypoint>, j: nat, before: Option<Waypoint>, k: int)
    requires j < |stops|
    reads stops[j].Obj()
  {
    match stops[j]
    case N(n) => n.varFrom == Enc(k)
    case R(r) => (if stops[j].GetMode(before) == RelInv then r.varTo else r.varFrom) == Enc(k)
  }

  /** What holds at the head of the loop of `Path.String` before stop `i`
      is visited: the texts of the stops before `i - 1` are collected, stop
      `i - 1` has its first slot bound to the current name, and `lenSoFar`
      counts the node stops up to `i - 1`. */
  ghost predicate Visited(stops: seq<Waypoint>, stars: seq<bool>, i: nat, elements: seq<string>,
                          prevPrev: Option<Waypoint>, lenSoFar: int)
    requires IsPath(stops) && |stars| == |stops| && 1 <= i <= |stops|
    reads stops[i - 1].Obj()
  {
    && prevPrev == (if i == 1 then None else Some(stops[i - 2]))
    && i - 1 == 2 * (lenSoFar - 1) + (if stops[i - 1].R? then 1 else 0)
    && elements == StopTextsUpTo(stops, stars, i - 1)
    && Bound(stops, i - 1, prevPrev, lenSoFar)
  }

  /** One turn of the loop in `Path.String`: bind the slots for the step
      into stop `i`, then collect the text of stop `i - 1`, whose slots are
      both bound now. */
  method Visit(stops: seq<Waypoint>, stars: seq<bool>, i: nat, elements: seq<string>,
               prevPrev: Option<Waypoint>, lenSoFar: int)
    returns (elements': seq<string>, lenSoFar': int)
    requires IsPath(stops) && |stars| == |stops| && 1 <= i < |stops|
    requires Visited(stops, stars, i, elements, prevPrev, lenSoFar)
    modifies stops[i - 1].Obj(), stops[i].Obj()
    ensures Visited(stops, stars, i + 1, elements', Some(stops[i - 1]), lenSoFar')
  {
    lenSoFar' := BindStep(stops, i, prevPrev, lenSoFar);
    StopTextBound(stops, stars, i - 1, lenSoFar);
    elements' := elements + [stops[i - 1].StringRep(stars[i - 1])];
  }

  /** The loop of `Path.String`: binds the slots of every stop and
      collects the texts of all stops but the last, returning the loop's
      final `prevPrev` and `lenSoFar`. */
  method BindStops(stops: seq<Waypoint>, stars: seq<bool>)
    returns (elements: seq<string>, prevPrev: Option<Waypoint>, lenSoFar: int)
    requires IsPath(stops) && |stars| == |stops| && |stops| > 0
    modifies Objects(stops)
    ensures Visited(stops, stars, |stops|, elements, prevPrev, lenSoFar)
  {
    elements := [];
    lenSoFar := 1;
    prevPrev := None;
    var first := ConvertToAlphabetic(lenSoFar);
    assert stops[0].Obj() in Objects(stops);
    stops[0].SetLabelFrom(first);
    var i := 1;
    while i < |stops|
      invariant 1 <= i <= |stops|
      invariant Visited(stops, stars, i, elements, prevPrev, lenSoFar)
    {
      assert stops[i].Obj() in Objects(stops) && stops[i - 1].Obj() in Objects(stops);
      elements, lenSoFar := Visit(stops, stars, i, elements, prevPrev, lenSoFar);
      prevPrev := Some(stops[i - 1]);
      i := i + 1;
    }
  }


  /** `Path.String`: one pass with the counter `lenSoFar` and the two
      previous stops, writing the binding slots of the shared objects and
      collecting each stop's text once its slots are bound; the last stop
      is added after the loop unless it is unlabelled. `stars[i]` is the
      random draw made when stop `i` is rendered. */
  method PathString(stops: seq<Waypoint>, stars: seq<bool>) returns (out: string)
    requires IsPath(stops) && |stars| == |stops|
    modifies Objects(stops)
    ensures out == PathQuery(stops, stars)
  {
    if |stops| == 0 {
      return "";
    }
    var elements, prevPrev, lenSoFar := BindStops(stops, stars);
    var last := stops[|stops| - 1];
    if last.GetMode(prevPrev) == NodeType {
      StopTextBound(stops, stars, |stops| - 1, lenSoFar);
      elements := elements + [last.StringRep(stars[|stops| - 1])];
    }
    PathQueryEnd(stops, stars, elements);
    out := Join(DropEmpty(elements), ", ");
  }
}
