/** The older, by-value query generator of npqgen.go: the graph keeps node
    values in its map and relationship values in its list, a relationship
    points at private copies of its end nodes, the random walk hands out
    fresh copies of what it visits, and the path renderer emits the first
    stop, the relationships and the last stop. */
module NpqGen {
  import opened Wrappers
  import opened Strings
  import opened Letters

  // ---------------------------------------------------------------------
  // Schema entities
  // ---------------------------------------------------------------------

  /** A node value as stored in the graph's map. */
  datatype NodeVal = NodeVal(name: string, unlabelled: bool, varFrom: string, varTo: string)

  /** A node object: a copy of a node value that a relationship or a path
      points at. */
  class Node {
    const name: string
    const unlabelled: bool
    var varFrom: string
    var varTo: string

    /** Taking the address of a copy of `v`. */
    constructor (v: NodeVal)
      ensures Copies(v)
    {
      name := v.name;
      unlabelled := v.unlabelled;
      varFrom := v.varFrom;
      varTo := v.varTo;
    }

    /** This object holds the value `v`. */
    ghost predicate Copies(v: NodeVal)
      reads this
    {
      name == v.name && unlabelled == v.unlabelled && varFrom == v.varFrom && varTo == v.varTo
    }
  }

  /** A relationship value as stored in the graph's list; its ends are
      pointers. */
  datatype RelVal = RelVal(name: string, from: Node, to: Node, varFrom: string, varTo: string)

  /** A relationship object: a copy of a relationship value sharing its end
      pointers. */
  class Relationship {
    const name: string
    const from: Node
    const to: Node
    var varFrom: string
    var varTo: string

    constructor (v: RelVal)
      ensures Copies(v)
    {
      name := v.name;
      from := v.from;
      to := v.to;
      varFrom := v.varFrom;
      varTo := v.varTo;
    }

    ghost predicate Copies(v: RelVal)
      reads this
    {
      name == v.name && from == v.from && to == v.to && varFrom == v.varFrom && varTo == v.varTo
    }
  }

  /** `RelInv`: a relationship entered from anything but its `from` end. */
  datatype Mode = NodeType | UnLabel | RelType | RelInv

  /** One stop of a path. */
  datatype Waypoint = N(node: Node) | R(rel: Relationship)
  {
    function Label(): string
    {
      if N? then node.name else rel.name
    }

    function Obj(): object
    {
      if N? then node else rel
    }

    /** `GetMode`. A relationship reads its predecessor's label, which the
        source dereferences without a nil check, so it needs one; it is
        forward exactly when that label is the one of its `from` end. */
    function GetMode(prev: Option<Waypoint>): (m: Mode)
      requires R? ==> prev.Some?
      ensures N? ==> (m == UnLabel <==> node.unlabelled) && (m == NodeType <==> !node.unlabelled)
      ensures R? ==> (m == RelType <==> prev.value.Label() == rel.from.name)
      ensures R? ==> (m == RelInv <==> prev.value.Label() != rel.from.name)
    {
      match this
      case N(n) => if n.unlabelled then UnLabel else NodeType
      case R(r) => if prev.value.Label() == r.from.name then RelType else RelInv
    }

    /** The `varFrom` binding slot. */
    function From(): string
      reads Obj()
    {
      if N? then node.varFrom else rel.varFrom
    }

    /** The `varTo` binding slot. */
    function To(): string
      reads Obj()
    {
      if N? then node.varTo else rel.varTo
    }

    /** `StringRep` with the current binding slots. */
    function StringRep(): string
      reads Obj()
    {
      match this
      case N(n) => NodeText(n.name, n.unlabelled, From())
      case R(r) => RelText(r.name, From(), To())
    }

    method SetLabelFrom(v: string)
      modifies Obj()
      ensures From() == v && To() == old(To())
    {
      match this
      case N(n) => n.varFrom := v;
      case R(r) => r.varFrom := v;
    }

    method SetLabelTo(v: string)
      modifies Obj()
      ensures To() == v && From() == old(From())
    {
      match this
      case N(n) => n.varTo := v;
      case R(r) => r.varTo := v;
    }
  }

  /** A reflexive relationship reached from a node labelled like its ends is
      always taken forwards. */
  lemma ReflexiveIsForward(prev: Waypoint, r: Relationship)
    requires r.from.name == r.to.name && prev.Label() == r.to.name
    ensures R(r).GetMode(Some(prev)) == RelType
  {
  }

  /** The text of a node: `label(var)`, or nothing for an unlabelled node. */
  function NodeText(name: string, unlabelled: bool, v: string): string
  {
    if unlabelled then "" else name + "(" + v + ")"
  }

  /** The text of a relationship: `label(from,to)`. */
  function RelText(name: string, f: string, t: string): string
  {
    name + "(" + f + "," + t + ")"
  }

  /** The objects behind a sequence of waypoints. */
  function Objects(ws: seq<Waypoint>): set<object>
  {
    set i | 0 <= i < |ws| :: ws[i].Obj()
  }

  // ---------------------------------------------------------------------
  // The schema graph
  // ---------------------------------------------------------------------

  datatype GraphError = DuplicateLabel | NodeNotFound

  /** The contents of a `Graph` value. */
  datatype GraphVal = GraphVal(nodes: map<string, NodeVal>, edges: seq<RelVal>)
  {
    /** What `AddNode`/`AddRel` maintain: each node value is stored under its
        own label, and each relationship's ends are labelled like stored
        nodes. */
    ghost predicate Valid()
    {
      && (forall l | l in nodes :: nodes[l].name == l)
      && (forall e | e in edges :: e.from.name in nodes && e.to.name in nodes)
    }

    /** No two relationship ends share a node object: each end is a private
        copy. */
    ghost predicate Unaliased()
    {
      && (forall i | 0 <= i < |edges| :: edges[i].from != edges[i].to)
      && (forall i, j | 0 <= i < j < |edges| :: {edges[i].from, edges[i].to} !! {edges[j].from, edges[j].to})
    }
  }

  /** Appending a relationship between stored labels whose ends are new
      objects keeps a graph valid and unaliased. */
  lemma AppendRel(g: GraphVal, e: RelVal)
    requires g.Valid() && g.Unaliased()
    requires e.from.name in g.nodes && e.to.name in g.nodes && e.from != e.to
    requires forall i | 0 <= i < |g.edges| :: e.from !in {g.edges[i].from, g.edges[i].to} && e.to !in {g.edges[i].from, g.edges[i].to}
    ensures GraphVal(g.nodes, g.edges + [e]).Valid() && GraphVal(g.nodes, g.edges + [e]).Unaliased()
  {
    var edges := g.edges + [e];
    assert forall x | x in edges :: x in g.edges || x == e;
    assert forall i | 0 <= i < |g.edges| :: edges[i] == g.edges[i];
  }

  class Graph {
    var nodes: map<string, NodeVal>
    var edges: seq<RelVal>

    function View(): GraphVal
      reads this
    {
      GraphVal(nodes, edges)
    }

    ghost predicate Valid()
      reads this
    {
      View().Valid() && View().Unaliased()
    }

    constructor ()
      ensures nodes == map[] && edges == [] && Valid()
    {
      nodes := map[];
      edges := [];
    }

    /** `Graph.AddNode`: store the node value under its label, or fail with
        `DuplicateLabel`, changing nothing, when the label is taken. */
    method AddNode(node: NodeVal) returns (err: Option<GraphError>)
      requires Valid()
      modifies this
      ensures Valid() && edges == old(edges)
      ensures err == (if node.name in old(nodes) then Some(DuplicateLabel) else None)
      ensures err.Some? ==> nodes == old(nodes)
      ensures err.None? ==> nodes == old(nodes)[node.name := node]
    {
      if node.name in nodes {
        return Some(DuplicateLabel);
      }
      nodes := nodes[node.name := node];
      return None;
    }

    /** `Graph.AddRel`: append one relationship whose ends point at fresh
        copies of the node values stored under `from` and `to` (two
        different copies even when `from == to`), or fail with
        `NodeNotFound`, changing nothing, when either label is missing. */
    method AddRel(name: string, from: string, to: string) returns (err: Option<GraphError>)
      requires Valid()
      modifies this
      ensures Valid() && nodes == old(nodes)
      ensures err == (if from !in nodes || to !in nodes then Some(NodeNotFound) else None)
      ensures err.Some? ==> edges == old(edges)
      ensures err.None? ==>
                && |edges| == |old(edges)| + 1 && edges[..|old(edges)|] == old(edges)
                && var e := edges[|old(edges)|];
                   && e.name == name && e.varFrom == "" && e.varTo == ""
                   && fresh(e.from) && fresh(e.to) && e.from != e.to
                   && e.from.Copies(nodes[from]) && e.to.Copies(nodes[to])
    {
      if from !in nodes {
        return Some(NodeNotFound);
      }
      var fromNode := nodes[from];
      if to !in nodes {
        return Some(NodeNotFound);
      }
      var toNode := nodes[to];
      var f := new Node(fromNode);
      var t := new Node(toNode);
      var e := RelVal(name, f, t, "", "");
      AppendRel(View(), e);
      edges := edges + [e];
      assert edges[..|edges| - 1] == old(edges);
      err := None;
    }
  }

  // ---------------------------------------------------------------------
  // The letter encoder
  // ---------------------------------------------------------------------

  /** `convertToAlphabetic` from the point where `result` already holds the
      letters of the lower digits. */
  function Convert(n: int, result: string): (r: string)
    ensures r == Enc(n) + result
    decreases n
  {
    if n <= 0 then result
    else
      var mod := (n - 1) % 26;
      assert (n - mod) / 26 == (n - 1) / 26;
      Convert((n - mod) / 26, [Digit(mod)] + result)
  }

  /** `convertToAlphabetic`: the name of the `n`-th variable. */
  function ConvertToAlphabetic(n: int): (r: string)
    ensures r == Enc(n)
  {
    Convert(n, "")
  }

  // ---------------------------------------------------------------------
  // The random walk
  // ---------------------------------------------------------------------

  /** `NoIncidentEdge` stands for the panic of `Intn(0)`. */
  datatype PathError = StartNotFound | NoIncidentEdge

  predicate Touches(e: RelVal, l: string)
  {
    e.from.name == l || e.to.name == l
  }

  /** The label a walk moves to along `e` from a node labelled `l`. */
  function Far(e: RelVal, l: string): string
  {
    if e.to.name == l then e.from.name else e.to.name
  }

  /** The relationship values with an end labelled `start`, in list order. */
  function Candidates(edges: seq<RelVal>, start: string): (r: seq<RelVal>)
    ensures forall e | e in r :: e in edges && Touches(e, start)
    ensures forall e | e in edges && Touches(e, start) :: e in r
  {
    if |edges| == 0 then []
    else
      var init := Candidates(edges[..|edges| - 1], start);
      var last := edges[|edges| - 1];
      assert forall e | e in edges :: e in edges[..|edges| - 1] || e == last;
      init + (if Touches(last, start) then [last] else [])
  }

  /** A stop of a planned path: the value the path will hold a copy of. */
  datatype Stop = NodeStop(v: NodeVal) | RelStop(e: RelVal)
  {
    function Label(): string
    {
      if NodeStop? then v.name else e.name
    }
  }

  /** The values `GetPath` visits, hop k taking candidate
      `picks[k] % |candidates|`. The error of the recursive call is dropped
      as in the source, so a missing far end would end the path after the
      relationship; PlanIsWalk shows a valid graph never does that. */
  function Plan(g: GraphVal, length: int, start: string, picks: seq<nat>): (r: Result<seq<Stop>, PathError>)
    requires length <= 1 || |picks| >= length - 1
    ensures (r == Failure(StartNotFound)) <==> start !in g.nodes
    ensures start in g.nodes && length <= 1 ==> r == Success([NodeStop(g.nodes[start])])
    ensures r.Success? ==> |r.value| >= 1 && start in g.nodes && r.value[0] == NodeStop(g.nodes[start])
    decreases length
  {
    if start !in g.nodes then Failure(StartNotFound)
    else if length <= 1 then Success([NodeStop(g.nodes[start])])
    else
      var cands := Candidates(g.edges, start);
      if |cands| == 0 then Failure(NoIncidentEdge)
      else
        var rel := cands[picks[0] % |cands|];
        var head := [NodeStop(g.nodes[start]), RelStop(rel)];
        match Plan(g, length - 1, Far(rel, start), picks[1..])
        case Success(rest) => Success(head + rest)
        case Failure(StartNotFound) => Success(head)
        case Failure(NoIncidentEdge) => Failure(NoIncidentEdge)
  }

  /** A walk in `g`: node values of `g` at even positions, relationship
      values of `g` at odd ones, each touching the label before it and
      followed by the node at its far end. */
  ghost predicate IsWalk(g: GraphVal, p: seq<Stop>)
  {
    && |p| % 2 == 1
    && (forall i | 0 <= i < |p| :: p[i].NodeStop? <==> i % 2 == 0)
    && (forall i | 0 <= i < |p| && p[i].NodeStop? :: p[i].v.name in g.nodes && g.nodes[p[i].v.name] == p[i].v)
    && (forall i | 0 < i < |p| - 1 && p[i].RelStop? ::
          && p[i].e in g.edges
          && Touches(p[i].e, p[i - 1].Label())
          && p[i + 1].Label() == Far(p[i].e, p[i - 1].Label()))
  }

  lemma WalkCons(g: GraphVal, v: NodeVal, rel: RelVal, rest: seq<Stop>)
    requires IsWalk(g, rest) && v.name in g.nodes && g.nodes[v.name] == v && rel in g.edges
    requires Touches(rel, v.name) && rest[0].Label() == Far(rel, v.name)
    ensures IsWalk(g, [NodeStop(v), RelStop(rel)] + rest)
  {
    var p := [NodeStop(v), RelStop(rel)] + rest;
    forall i | 0 <= i < |p| ensures p[i].NodeStop? <==> i % 2 == 0 {
      if i >= 2 {
        assert p[i] == rest[i - 2];
      }
    }
    forall i | 0 <= i < |p| && p[i].NodeStop? ensures p[i].v.name in g.nodes && g.nodes[p[i].v.name] == p[i].v {
      if i >= 2 {
        assert p[i] == rest[i - 2];
      }
    }
    forall i | 0 < i < |p| - 1 && p[i].RelStop?
      ensures && p[i].e in g.edges
              && Touches(p[i].e, p[i - 1].Label())
              && p[i + 1].Label() == Far(p[i].e, p[i - 1].Label())
    {
      if i >= 2 {
        assert p[i - 1] == rest[i - 3] && p[i] == rest[i - 2] && p[i + 1] == rest[i - 1];
      }
    }
  }

  /** In a valid graph a successful walk of `length` hops has `2*length-1`
      stops (one when `length <= 1`), starts at the start node and is a walk. */
  lemma {:induction false} PlanIsWalk(g: GraphVal, length: int, start: string, picks: seq<nat>)
    requires g.Valid()
    requires length <= 1 || |picks| >= length - 1
    requires Plan(g, length, start, picks).Success?
    ensures var p := Plan(g, length, start, picks).value;
            && IsWalk(g, p)
            && |p| == (if length <= 1 then 1 else 2 * length - 1)
    decreases length
  {
    if length > 1 {
      var cands := Candidates(g.edges, start);
      var rel := cands[picks[0] % |cands|];
      var next := Far(rel, start);
      assert rel in cands;
      assert next in g.nodes;
      PlanIsWalk(g, length - 1, next, picks[1..]);
      var rest := Plan(g, length - 1, next, picks[1..]).value;
      WalkCons(g, g.nodes[start], rel, rest);
    }
  }

  /** The walk fails, as the source panics, when it must leave a node that
      no relationship touches. */
  lemma PlanDeadEnd(g: GraphVal, length: int, start: string, picks: seq<nat>)
    requires start in g.nodes && length > 1 && |picks| >= length - 1
    requires forall e | e in g.edges :: !Touches(e, start)
    ensures Plan(g, length, start, picks) == Failure(NoIncidentEdge)
  {
    var cands := Candidates(g.edges, start);
    assert forall i | 0 <= i < |cands| :: cands[i] in cands;
  }

  /** The value a stop's object holds now. */
  function Value(w: Waypoint): Stop
    reads w.Obj()
  {
    match w
    case N(n) => NodeStop(NodeVal(n.name, n.unlabelled, n.varFrom, n.varTo))
    case R(r) => RelStop(RelVal(r.name, r.from, r.to, r.varFrom, r.varTo))
  }

  /** The values the objects of a path hold now. */
  function Values(stops: seq<Waypoint>): (r: seq<Stop>)
    reads Objects(stops)
    ensures |r| == |stops| && forall i | 0 <= i < |stops| :: r[i] == Value(stops[i])
  {
    seq(|stops|, i requires 0 <= i < |stops| reads Objects(stops) => Value(stops[i]))
  }

  lemma ObjectsAppend(a: seq<Waypoint>, b: seq<Waypoint>)
    ensures Objects(a + b) == Objects(a) + Objects(b)
  {
    var ab := a + b;
    forall o | o in Objects(ab) ensures o in Objects(a) + Objects(b) {
      var i :| 0 <= i < |ab| && ab[i].Obj() == o;
      if i >= |a| {
        assert b[i - |a|].Obj() == o;
      }
    }
    forall o | o in Objects(a) ensures o in Objects(ab) {
      var i :| 0 <= i < |a| && a[i].Obj() == o;
      assert ab[i].Obj() == o;
    }
    forall o | o in Objects(b) ensures o in Objects(ab) {
      var i :| 0 <= i < |b| && b[i].Obj() == o;
      assert ab[|a| + i].Obj() == o;
    }
  }

  /** The objects and values of a one-stop path. */
  lemma Single(w: Waypoint)
    ensures Objects([w]) == {w.Obj()} && Values([w]) == [Value(w)]
  {
    assert [w][0] == w;
  }

  /** Two paths of distinct objects make up one whose objects and values
      are those of both. */
  lemma Prepend(a: seq<Waypoint>, b: seq<Waypoint>)
    requires Unshared(a) && Unshared(b) && Objects(a) !! Objects(b)
    ensures Objects(a + b) == Objects(a) + Objects(b)
    ensures Values(a + b) == Values(a) + Values(b)
    ensures Unshared(a + b)
  {
    ObjectsAppend(a, b);
    UnsharedAppend(a, b);
    assert forall i | |a| <= i < |a| + |b| :: (a + b)[i] == b[i - |a|];
  }

  /** No object occurs twice. */
  ghost predicate Unshared(stops: seq<Waypoint>)
  {
    forall i, j | 0 <= i < j < |stops| :: stops[i].Obj() != stops[j].Obj()
  }

  lemma UnsharedAppend(a: seq<Waypoint>, b: seq<Waypoint>)
    requires Unshared(a) && Unshared(b) && Objects(a) !! Objects(b)
    ensures Unshared(a + b)
  {
    var ab := a + b;
    forall i, j | 0 <= i < j < |ab| ensures ab[i].Obj() != ab[j].Obj() {
      if j >= |a| {
        assert ab[j] == b[j - |a|];
        assert ab[j].Obj() in Objects(b);
        if i >= |a| {
          assert ab[i] == b[i - |a|];
        } else {
          assert ab[i].Obj() in Objects(a);
        }
      }
    }
  }

  /** The address of a fresh copy of `v`. */
  method Address(v: Stop) returns (w: Waypoint)
    ensures fresh(w.Obj()) && Value(w) == v
  {
    match v
    case NodeStop(n) =>
      var node := new Node(n);
      w := N(node);
    case RelStop(e) =>
      var rel := new Relationship(e);
      w := R(rel);
  }

  /** The neighbour loop of `GetPath`. */
  method Neighbours(edges: seq<RelVal>, start: string) returns (out: seq<RelVal>)
    ensures out == Candidates(edges, start)
  {
    out := [];
    var i := 0;
    while i < |edges|
      invariant 0 <= i <= |edges|
      invariant out == Candidates(edges[..i], start)
    {
      var rel := edges[i];
      assert edges[..i + 1][..i] == edges[..i];
      if rel.from.name == start || rel.to.name == start {
        out := out + [rel];
      }
      i := i + 1;
    }
    assert edges[..i] == edges;
  }

  /** `Graph.GetPath`: the walk of `Plan`, each stop the address of a fresh
      copy of the value visited (`&startNode`, `&nextRelToTake`). */
  method GetPath(g: GraphVal, length: int, start: string, picks: seq<nat>) returns (r: Result<seq<Waypoint>, PathError>)
    requires length <= 1 || |picks| >= length - 1
    ensures r.Failure? ==> Plan(g, length, start, picks) == Failure(r.error)
    ensures r.Success? ==> Plan(g, length, start, picks) == Success(Values(r.value))
    ensures r.Success? ==> Unshared(r.value) && fresh(Objects(r.value))
    decreases length, 1
  {
    if start !in g.nodes {
      return Failure(StartNotFound);
    }
    var startNode := Address(NodeStop(g.nodes[start]));
    var tmpPath := [startNode];
    if length <= 1 {
      Single(startNode);
      return Success(tmpPath);
    }
    var neighbours := Neighbours(g.edges, start);
    if |neighbours| == 0 {
      return Failure(NoIncidentEdge);
    }
    var nextRelToTake := neighbours[picks[0] % |neighbours|];
    var rest := Continue(g, length, start, picks, nextRelToTake);
    PlanStep(g, length, start, picks, nextRelToTake);
    if rest.Failure? {
      return Failure(rest.error);
    }
    Single(startNode);
    Prepend(tmpPath, rest.value);
    return Success(tmpPath + rest.value);
  }

  /** The rest of `GetPath` once `nextRelToTake` is chosen: the address of
      a fresh copy of it, then the walk from its far end. */
  method Continue(g: GraphVal, length: int, start: string, picks: seq<nat>, nextRelToTake: RelVal) returns (r: Result<seq<Waypoint>, PathError>)
    requires length > 1 && |picks| >= length - 1
    ensures r.Failure? ==> Follow(nextRelToTake, Plan(g, length - 1, Far(nextRelToTake, start), picks[1..])) == Failure(r.error)
    ensures r.Success? ==> Follow(nextRelToTake, Plan(g, length - 1, Far(nextRelToTake, start), picks[1..])) == Success(Values(r.value))
    ensures r.Success? ==> Unshared(r.value) && fresh(Objects(r.value))
    decreases length, 0
  {
    var relCopy := Address(RelStop(nextRelToTake));
    var tmpPath := [relCopy];
    var rem := GetPath(g, length - 1, Far(nextRelToTake, start), picks[1..]);
    Single(relCopy);
    match rem {
      case Success(remPath) =>
        Prepend(tmpPath, remPath);
        return Success(tmpPath + remPath);
      case Failure(StartNotFound) =>
        return Success(tmpPath);
      case Failure(NoIncidentEdge) =>
        return Failure(NoIncidentEdge);
    }
  }

  /** The walk after taking `rel`, from the walk from its far end: a walk
      that cannot start there ends with `rel`. */
  function Follow(rel: RelVal, rest: Result<seq<Stop>, PathError>): Result<seq<Stop>, PathError>
  {
    match rest
    case Success(s) => Success([RelStop(rel)] + s)
    case Failure(StartNotFound) => Success([RelStop(rel)])
    case Failure(NoIncidentEdge) => Failure(NoIncidentEdge)
  }

  /** One step of the walk: the node at `start`, followed by the walk after
      taking `rel`. */
  lemma PlanStep(g: GraphVal, length: int, start: string, picks: seq<nat>, rel: RelVal)
    requires start in g.nodes && length > 1 && |picks| >= length - 1
    requires var cands := Candidates(g.edges, start); |cands| > 0 && rel == cands[picks[0] % |cands|]
    ensures Plan(g, length, start, picks) ==
      match Follow(rel, Plan(g, length - 1, Far(rel, start), picks[1..]))
      case Success(s) => Success([NodeStop(g.nodes[start])] + s)
      case Failure(e) => Failure(e)
  {
    var rest := Plan(g, length - 1, Far(rel, start), picks[1..]);
    var head := [NodeStop(g.nodes[start]), RelStop(rel)];
    assert [NodeStop(g.nodes[start])] + [RelStop(rel)] == head;
    if rest.Success? {
      assert [NodeStop(g.nodes[start])] + ([RelStop(rel)] + rest.value) == head + rest.value;
    }
  }

  // ---------------------------------------------------------------------
  // Rendering a path
  // ---------------------------------------------------------------------

  /** A path as the walk produces it: node, relationship, node, ... ,
      node. */
  predicate IsPath(stops: seq<Waypoint>)
  {
    && |stops| % 2 == 1
    && forall i | 0 <= i < |stops| :: stops[i].N? <==> i % 2 == 0
  }

  /** The variable of the node stop at `i`: nodes are numbered from one in
      path order. */
  function NodeVar(i: int): string
  {
    Enc(i / 2 + 1)
  }

  /** The text of stop `i` once the path is rendered: a node with its own
      variable, a relationship with the variables of its neighbours, the one
      of its `from` end first. */
  function StopText(stops: seq<Waypoint>, i: int): string
    requires IsPath(stops) && 0 <= i < |stops|
  {
    match stops[i]
    case N(n) => NodeText(n.name, n.unlabelled, NodeVar(i))
    case R(r) =>
      if stops[i].GetMode(Some(stops[i - 1])) == RelInv then RelText(r.name, NodeVar(i + 1), NodeVar(i - 1))
      else RelText(r.name, NodeVar(i - 1), NodeVar(i + 1))
  }

  /** The texts of the relationships, in path order. */
  function RelTexts(stops: seq<Waypoint>): seq<string>
    requires IsPath(stops)
  {
    seq(|stops| / 2, k requires 0 <= k < |stops| / 2 => StopText(stops, 2 * k + 1))
  }

  /** The query of a path: the first stop, every relationship and, when it
      is labelled, the last stop; the intermediate nodes contribute only
      their variables. */
  function PathQuery(stops: seq<Waypoint>): string
    requires |stops| == 0 || IsPath(stops)
  {
    if |stops| == 0 then "" else Join(QueryParts(stops), ", ")
  }

  /** The texts a path's query joins. */
  function QueryParts(stops: seq<Waypoint>): seq<string>
    requires IsPath(stops)
  {
    var last := |stops| - 1;
    [StopText(stops, 0)] + RelTexts(stops) + (if stops[last].node.unlabelled then [] else [StopText(stops, last)])
  }

  /** The texts the loop has appended after visiting `n` stops: the first
      stop on the first iteration, then the relationship before each later
      node. */
  function Collected(stops: seq<Waypoint>, n: int): seq<string>
    requires IsPath(stops) && 0 <= n <= |stops|
  {
    if n == 0 then []
    else if n == 1 then [StopText(stops, 0)]
    else Collected(stops, n - 1) + (if stops[n - 1].N? then [StopText(stops, n - 2)] else [])
  }

  lemma {:induction false} CollectedRelTexts(stops: seq<Waypoint>, m: nat)
    requires IsPath(stops) && 2 * m + 1 <= |stops|
    ensures Collected(stops, 2 * m + 1) == [StopText(stops, 0)] + seq(m, k requires 0 <= k < m => StopText(stops, 2 * k + 1))
  {
    if m > 0 {
      CollectedRelTexts(stops, m - 1);
      assert stops[2 * m].N? && !stops[2 * m - 1].N?;
      var rs := seq(m, k requires 0 <= k < m => StopText(stops, 2 * k + 1));
      assert rs == seq(m - 1, k requires 0 <= k < m - 1 => StopText(stops, 2 * k + 1)) + [StopText(stops, 2 * m - 1)];
    }
  }

  /** Stop `j` holds the variable `Enc(k)` in the slot its successor reads:
      a node in `varFrom`, a relationship in the slot of the end the path
      entered it from. */
  ghost predicate Bound(stops: seq<Waypoint>, j: int, v: string)
    requires IsPath(stops) && 0 <= j < |stops|
    reads stops[j].Obj()
  {
    (if Inverse(stops, j) then stops[j].To() else stops[j].From()) == v
  }

  /** Stop `j` is a relationship the path enters from its `to` end. */
  predicate Inverse(stops: seq<Waypoint>, j: int)
    requires IsPath(stops) && 0 <= j < |stops|
  {
    stops[j].R? && stops[j].GetMode(Some(stops[j - 1])) == RelInv
  }

  /** The loop state of `Path.String` before visiting stop `i`. */
  ghost predicate Visited(stops: seq<Waypoint>, i: int, elements: seq<string>, prev: Waypoint, prevPrev: Option<Waypoint>, lenSoFar: int)
    reads prev.Obj()
  {
    && IsPath(stops) && 0 <= i <= |stops|
    && prev == stops[if i == 0 then 0 else i - 1]
    && prevPrev == (if i == 0 then None else Some(stops[if i == 1 then 0 else i - 2]))
    && lenSoFar == (if i == 0 then 0 else (i - 1) / 2 + 1)
    && elements == Collected(stops, i)
    && (i > 0 ==> Bound(stops, i - 1, Enc(lenSoFar)))
  }

  /** One iteration of the loop of `Path.String`, on `next := stops[i]`. On
      the first iteration `prev` and `next` are the same stop. */
  method Render(stops: seq<Waypoint>, i: int, elements: seq<string>, prev: Waypoint, prevPrev: Option<Waypoint>, lenSoFar: int)
    returns (elements': seq<string>, lenSoFar': int)
    requires Unshared(stops) && i < |stops|
    requires Visited(stops, i, elements, prev, prevPrev, lenSoFar)
    modifies Objects(stops)
    ensures Visited(stops, i + 1, elements', stops[i], Some(prev), lenSoFar')
  {
    var next := stops[i];
    assert next.Obj() in Objects(stops) && prev.Obj() in Objects(stops);
    var mode := next.GetMode(Some(prev));
    if mode == NodeType || mode == UnLabel {
      elements', lenSoFar' := RenderNode(stops, i, elements, prev, prevPrev, lenSoFar);
    } else {
      RenderRel(stops, i, elements, prev, prevPrev, lenSoFar);
      elements', lenSoFar' := elements, lenSoFar;
    }
  }

  /** The node case of the loop body: the node gets the next variable, the
      stop before it is closed with that variable and its text appended. */
  method RenderNode(stops: seq<Waypoint>, i: int, elements: seq<string>, prev: Waypoint, prevPrev: Option<Waypoint>, lenSoFar: int)
    returns (elements': seq<string>, lenSoFar': int)
    requires Unshared(stops) && i < |stops|
    requires Visited(stops, i, elements, prev, prevPrev, lenSoFar) && stops[i].N?
    modifies stops[i].Obj(), prev.Obj()
    ensures Visited(stops, i + 1, elements', stops[i], Some(prev), lenSoFar')
  {
    var next := stops[i];
    assert i > 0 ==> next.Obj() != prev.Obj();
    var prevVar := ConvertToAlphabetic(lenSoFar);
    lenSoFar' := lenSoFar + 1;
    var nextVar := ConvertToAlphabetic(lenSoFar');
    next.SetLabelFrom(nextVar);
    ClosePrev(stops, i, prev, prevPrev, prevVar, nextVar);
    elements' := elements + [prev.StringRep()];
    next.SetLabelTo(nextVar);
    NodeVisited(stops, i, elements, elements', prev, prevPrev, lenSoFar', prevVar, nextVar);
  }

  /** The relationship case of the loop body: the relationship takes the
      current variable in the slot of the end the path enters it from. */
  method RenderRel(stops: seq<Waypoint>, i: int, elements: seq<string>, prev: Waypoint, prevPrev: Option<Waypoint>, lenSoFar: int)
    requires Unshared(stops) && i < |stops|
    requires Visited(stops, i, elements, prev, prevPrev, lenSoFar) && stops[i].R?
    modifies stops[i].Obj()
    ensures Visited(stops, i + 1, elements, stops[i], Some(prev), lenSoFar)
  {
    var next := stops[i];
    var prevVar := ConvertToAlphabetic(lenSoFar);
    if next.GetMode(Some(prev)) == RelType {
      next.SetLabelFrom(prevVar);
    } else {
      next.SetLabelTo(prevVar);
    }
    RelVisited(stops, i, elements, prev, lenSoFar);
  }

  /** The step of the node case that writes the new variable into the slot
      of `prev` the path leaves it by. */
  method ClosePrev(stops: seq<Waypoint>, i: int, prev: Waypoint, prevPrev: Option<Waypoint>, prevVar: string, nextVar: string)
    requires IsPath(stops) && 0 <= i < |stops| && stops[i].N?
    requires prev == stops[if i == 0 then 0 else i - 1]
    requires prevPrev == (if i == 0 then None else Some(stops[if i == 1 then 0 else i - 2]))
    requires i > 0 ==> Bound(stops, i - 1, prevVar)
    modifies prev.Obj()
    ensures i > 0 ==> Bound(stops, i - 1, prevVar) && Closed(stops, i - 1, nextVar)
    ensures i == 0 ==> prev.From() == old(prev.From())
  {
    if prev.GetMode(prevPrev) == RelInv {
      prev.SetLabelFrom(nextVar);
    } else {
      prev.SetLabelTo(nextVar);
    }
  }

  /** Relationship stop `j` holds the variable `Enc(k)` in the slot of the
      end the path leaves it by. */
  ghost predicate Closed(stops: seq<Waypoint>, j: int, v: string)
    requires IsPath(stops) && 0 <= j < |stops|
    reads stops[j].Obj()
  {
    (if Inverse(stops, j) then stops[j].From() else stops[j].To()) == v
  }

  /** The loop state after a node: it holds the new variable, and the stop
      before it, now bound on both sides, has had its text appended. */
  lemma NodeVisited(stops: seq<Waypoint>, i: int, collected: seq<string>, elements: seq<string>, prev: Waypoint, prevPrev: Option<Waypoint>, lenSoFar: int,
                    prevVar: string, nextVar: string)
    requires IsPath(stops) && 0 <= i < |stops| && stops[i].N?
    requires prev == stops[if i == 0 then 0 else i - 1]
    requires prevPrev == (if i == 0 then None else Some(stops[if i == 1 then 0 else i - 2]))
    requires lenSoFar == (if i == 0 then 0 else (i - 1) / 2 + 1) + 1
    requires collected == Collected(stops, i) && elements == collected + [prev.StringRep()]
    requires prevVar == Enc(lenSoFar - 1) && nextVar == Enc(lenSoFar) && stops[i].From() == nextVar
    requires i > 0 ==> Bound(stops, i - 1, prevVar) && Closed(stops, i - 1, nextVar)
    ensures Visited(stops, i + 1, elements, stops[i], Some(prev), lenSoFar)
  {
    var h := i / 2;
    assert i == 2 * h;
    if i > 0 {
      assert (i - 1) / 2 == h - 1 && (i - 2) / 2 == h - 1 && lenSoFar == h + 1;
      assert NodeVar(i) == nextVar && NodeVar(i - 2) == prevVar;
      RelRendered(stops, i - 1, prevVar, nextVar);
      assert Collected(stops, i + 1) == Collected(stops, i) + [StopText(stops, i - 1)];
    } else {
      assert NodeVar(0) == nextVar;
    }
    assert (i + 1 - 1) / 2 + 1 == lenSoFar;
  }

  /** A relationship bound on both sides renders as its final text. */
  lemma RelRendered(stops: seq<Waypoint>, j: int, lo: string, hi: string)
    requires IsPath(stops) && 0 <= j < |stops| && stops[j].R?
    requires NodeVar(j - 1) == lo && NodeVar(j + 1) == hi
    requires Bound(stops, j, lo) && Closed(stops, j, hi)
    ensures stops[j].StringRep() == StopText(stops, j)
  {
  }

  /** The loop state after a relationship: it holds the current variable in
      the slot of the end it was entered from. */
  lemma RelVisited(stops: seq<Waypoint>, i: int, elements: seq<string>, prev: Waypoint, lenSoFar: int)
    requires IsPath(stops) && 0 < i < |stops| && stops[i].R?
    requires prev == stops[i - 1]
    requires lenSoFar == (i - 1) / 2 + 1 && elements == Collected(stops, i)
    requires Bound(stops, i, Enc(lenSoFar))
    ensures Visited(stops, i + 1, elements, stops[i], Some(prev), lenSoFar)
  {
  }
  /** After the loop, the collected texts and the last stop, when the
      loop's final test admits it, make up the query's parts. */
  lemma Finished(stops: seq<Waypoint>, elements: seq<string>, prev: Waypoint, prevPrev: Option<Waypoint>, lenSoFar: int)
    requires |stops| > 0 && Visited(stops, |stops|, elements, prev, prevPrev, lenSoFar)
    ensures prev.N? && prev == stops[|stops| - 1]
    ensures prev.GetMode(prevPrev) == NodeType ==> elements + [prev.StringRep()] == QueryParts(stops)
    ensures prev.GetMode(prevPrev) != NodeType ==> elements == QueryParts(stops)
  {
    var last := |stops| - 1;
    CollectedRelTexts(stops, |stops| / 2);
    assert elements == [StopText(stops, 0)] + RelTexts(stops);
    if !prev.node.unlabelled {
      assert NodeVar(last) == Enc(lenSoFar);
      assert prev.StringRep() == StopText(stops, last);
    }
  }

  /** `Path.String`: bind the variables of the stops in place and render
      the query of the path. The source starts `prevPrev` as a nil pointer
      wrapped in an interface, which its `prevPrev != nil` tests never
      see as nil; it is `None` here, and those tests are left out. */
  method PathString(stops: seq<Waypoint>) returns (out: string)
    requires |stops| == 0 || IsPath(stops)
    requires Unshared(stops)
    modifies Objects(stops)
    ensures out == PathQuery(stops)
  {
    if |stops| == 0 {
      return "";
    }
    var elements, prev, prevPrev, lenSoFar := BindAll(stops);
    Finished(stops, elements, prev, prevPrev, lenSoFar);
    if prev.GetMode(prevPrev) == NodeType {
      elements := elements + [prev.StringRep()];
    }
    return Join(elements, ", ");
  }

  /** The loop of `Path.String`: visit every stop in path order. */
  method BindAll(stops: seq<Waypoint>) returns (elements: seq<string>, prev: Waypoint, prevPrev: Option<Waypoint>, lenSoFar: int)
    requires IsPath(stops) && Unshared(stops)
    modifies Objects(stops)
    ensures Visited(stops, |stops|, elements, prev, prevPrev, lenSoFar)
  {
    elements := [];
    lenSoFar := 0;
    prev := stops[0];
    prevPrev := None;
    assert prev.Obj() in Objects(stops);
    prev.SetLabelFrom(ConvertToAlphabetic(lenSoFar));
    var i := 0;
    while i < |stops|
      invariant Visited(stops, i, elements, prev, prevPrev, lenSoFar)
    {
      elements, lenSoFar := Render(stops, i, elements, prev, prevPrev, lenSoFar);
      prevPrev := Some(prev);
      prev := stops[i];
      i := i + 1;
    }
  }

  // ---------------------------------------------------------------------
  // What the rendered query says
  // ---------------------------------------------------------------------

  /** Each relationship of the path touches the label before it and is
      followed by the node at its far end, as on a walk of the graph. */
  ghost predicate Linked(stops: seq<Waypoint>)
    requires IsPath(stops)
  {
    forall i | 0 < i < |stops| - 1 && stops[i].R? ::
      var r := stops[i].rel;
      && (r.from.name == stops[i - 1].Label() || r.to.name == stops[i - 1].Label())
      && stops[i + 1].Label() == (if r.to.name == stops[i - 1].Label() then r.from.name else r.to.name)
  }

  /** The objects of a successful `GetPath` in a valid graph form a linked
      path that `Path.String` accepts. */
  lemma WalkLinked(g: GraphVal, stops: seq<Waypoint>, plan: seq<Stop>)
    requires IsWalk(g, plan)
    requires |stops| == |plan| && forall i | 0 <= i < |stops| :: Value(stops[i]) == plan[i]
    ensures IsPath(stops) && Linked(stops)
  {
    forall i | 0 <= i < |stops|
      ensures (stops[i].N? <==> plan[i].NodeStop?) && stops[i].Label() == plan[i].Label()
      ensures stops[i].R? ==> stops[i].rel.from == plan[i].e.from && stops[i].rel.to == plan[i].e.to
    {
      assert Value(stops[i]) == plan[i];
    }
    assert IsPath(stops);
    forall i | 0 < i < |stops| - 1 && stops[i].R?
      ensures var r := stops[i].rel;
              && (r.from.name == stops[i - 1].Label() || r.to.name == stops[i - 1].Label())
              && stops[i + 1].Label() == (if r.to.name == stops[i - 1].Label() then r.from.name else r.to.name)
    {
      assert plan[i].RelStop?;
    }
  }

  /** On a linked path, the first variable of a relationship is the one of
      the neighbour labelled like its `from` end and the second the one of
      the neighbour labelled like its `to` end, whichever way the path
      crosses it. */
  lemma StopTextDirected(stops: seq<Waypoint>, i: int)
    requires IsPath(stops) && Linked(stops) && 0 <= i < |stops| && stops[i].R?
    ensures var r := stops[i].rel;
            var (f, t) := if stops[i - 1].Label() == r.from.name then (i - 1, i + 1) else (i + 1, i - 1);
            && StopText(stops, i) == RelText(r.name, NodeVar(f), NodeVar(t))
            && stops[f].Label() == r.from.name && stops[t].Label() == r.to.name
  {
  }

  /** A path of one labelled node renders it twice: once as the first stop
      and once as the last. */
  lemma SingleStop(n: Node)
    requires !n.unlabelled
    ensures PathQuery([N(n)]) == n.name + "(a), " + n.name + "(a)"
  {
    var stops := [N(n)];
    var text := n.name + "(a)";
    assert RelTexts(stops) == [];
    assert StopText(stops, 0) == text by {
      assert NodeVar(0) == Enc(1) == "a" by { EncExamples(); }
    }
    assert [StopText(stops, 0)] + RelTexts(stops) + [StopText(stops, 0)] == [text, text];
    assert Join([text, text], ", ") == text + ", " + Join([text], ", ");
  }

  /** A path of one unlabelled node renders as the empty query. */
  lemma SingleUnlabelledStop(n: Node)
    requires n.unlabelled
    ensures PathQuery([N(n)]) == ""
  {
    var stops := [N(n)];
    assert RelTexts(stops) == [];
  }

  /** A walk `A -of-> B -has-> C`: the intermediate node contributes only
      its variable `b`, which both relationships share. */
  lemma TwoHops(a: Node, of: Relationship, b: Node, has: Relationship, c: Node)
    requires a.name == "A" && b.name == "B" && c.name == "C" && of.name == "of" && has.name == "has"
    requires of.from.name == "A" && has.from.name == "B"
    requires !a.unlabelled && !c.unlabelled
    ensures PathQuery([N(a), R(of), N(b), R(has), N(c)]) == "A(a), of(a,b), has(b,c), C(c)"
  {
    var parts := ["A(a)", "of(a,b)", "has(b,c)", "C(c)"];
    var stops := [N(a), R(of), N(b), R(has), N(c)];
    TwoHopsTexts(a, of, b, has, c);
    assert PathQuery(stops) == Join(parts, ", ");
    JoinFour(parts, ", ");
  }

  lemma TwoHopsTexts(a: Node, of: Relationship, b: Node, has: Relationship, c: Node)
    requires a.name == "A" && b.name == "B" && c.name == "C" && of.name == "of" && has.name == "has"
    requires of.from.name == "A" && has.from.name == "B"
    requires !a.unlabelled && !c.unlabelled
    ensures var stops := [N(a), R(of), N(b), R(has), N(c)];
            [StopText(stops, 0)] + RelTexts(stops) + [StopText(stops, 4)] == ["A(a)", "of(a,b)", "has(b,c)", "C(c)"]
  {
    var stops := [N(a), R(of), N(b), R(has), N(c)];
    assert NodeVar(0) == "a" && NodeVar(2) == "b" && NodeVar(4) == "c" by {
      assert Enc(1) == "a" && Enc(2) == "b" && Enc(3) == "c";
    }
    assert stops[1].GetMode(Some(stops[0])) == RelType;
    assert stops[3].GetMode(Some(stops[2])) == RelType;
    assert StopText(stops, 0) == "A(a)";
    assert StopText(stops, 1) == "of(a,b)";
    assert StopText(stops, 3) == "has(b,c)";
    assert StopText(stops, 4) == "C(c)";
    assert RelTexts(stops) == [StopText(stops, 1), StopText(stops, 3)];
  }
}
