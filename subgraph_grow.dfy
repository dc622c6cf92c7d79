/** The randomly grown subgraph of subgraph.go: a parent schema graph, the
    elements selected from it so far (the source's `order` map from element
    to insertion index, here the sequence of selected elements, each at its
    index) and the graph `current` they form. */
module SubgraphGrowth {
  import opened Wrappers
  import opened Collections
  import opened Strings
  import opened SubgraphGen
  import opened SubgraphQueries

  datatype SubgraphError = NoSuchLabel | OutOfBounds

  /** The outcome of one `RandomGrow`: nothing left to add, one element
      added, or the source's panic (`Intn(0)`) when a non-empty, incomplete
      selection has no neighbour. */
  datatype Growth = Full | Added(w: Waypoint) | Stuck

  /** The nodes of a selection, keyed by label: what `current.Nodes` holds. */
  function NodesOf(ws: seq<Waypoint>): map<string, Node>
  {
    if |ws| == 0 then map[]
    else
      var m := NodesOf(ws[..|ws| - 1]);
      match ws[|ws| - 1]
      case N(n) => m[n.name := n]
      case R(_) => m
  }

  /** The relationships of a selection in selection order: what
      `current.Edges` holds. */
  function RelsOf(ws: seq<Waypoint>): seq<Relationship>
  {
    if |ws| == 0 then []
    else
      var es := RelsOf(ws[..|ws| - 1]);
      match ws[|ws| - 1]
      case N(_) => es
      case R(e) => es + [e]
  }

  /** The graph formed by a selection. */
  function CurrentOf(ws: seq<Waypoint>): GraphVal
  {
    GraphVal(NodesOf(ws), RelsOf(ws))
  }

  /** A node label is in the selection's graph exactly when a selected node
      carries it, and it is stored with its own label. */
  lemma {:induction false} NodesOfKeys(ws: seq<Waypoint>)
    ensures forall l | l in NodesOf(ws) :: NodesOf(ws)[l].name == l && N(NodesOf(ws)[l]) in ws
    ensures forall w | w in ws && w.N? :: w.node.name in NodesOf(ws)
  {
    if |ws| > 0 {
      var init := ws[..|ws| - 1];
      NodesOfKeys(init);
      assert forall w | w in ws :: w in init || w == ws[|ws| - 1];
    }
  }

  /** The selection's relationships are exactly the selected ones. */
  lemma {:induction false} RelsOfMembers(ws: seq<Waypoint>)
    ensures forall e | e in RelsOf(ws) :: R(e) in ws
    ensures forall w | w in ws && w.R? :: w.rel in RelsOf(ws)
  {
    if |ws| > 0 {
      var init := ws[..|ws| - 1];
      RelsOfMembers(init);
      assert forall w | w in ws :: w in init || w == ws[|ws| - 1];
    }
  }

  /** A selection from `g`: elements of `g`, none twice. */
  ghost predicate Selection(g: GraphVal, ws: seq<Waypoint>)
  {
    Distinct(ws) && forall w | w in ws :: g.Has(w)
  }

  class Subgraph {
    const parent: GraphVal
    var current: GraphVal
    var order: seq<Waypoint>

    /** The parent is a graph built by `AddNode`/`AddRel`, the selection
        is drawn from it, and `current` is the graph the selection forms. */
    ghost predicate Valid()
      reads this
    {
      && parent.Valid()
      && Selection(parent, order)
      && current == CurrentOf(order)
    }

    /** `GetSubGraph`: nothing selected yet. */
    constructor (parent: GraphVal)
      requires parent.Valid()
      ensures this.parent == parent && order == [] && current == GraphVal(map[], [])
      ensures Valid()
    {
      this.parent := parent;
      current := GraphVal(map[], []);
      order := [];
    }

    /** `Subgraph.AddNode`: select `node` at the next index and put it into
        `current.Nodes`. */
    method AddNode(node: Node)
      requires Valid() && parent.Has(N(node)) && N(node) !in order
      modifies this
      ensures Valid()
      ensures order == old(order) + [N(node)]
      ensures current == GraphVal(old(current.nodes)[node.name := node], old(current.edges))
    {
      order := order + [N(node)];
      assert order[..|order| - 1] == old(order);
      current := GraphVal(current.nodes[node.name := node], current.edges);
    }

    /** An unselected parent node with a label some selected relationship
        ends at. */
    ghost predicate NodeCandidate(n: Node)
      reads this
    {
      N(n) !in order && parent.Has(N(n)) && Incident(current.edges, n.name)
    }

    /** An unselected parent relationship with an endpoint whose label is a
        selected node's. */
    ghost predicate EdgeCandidate(e: Relationship)
      reads this
    {
      R(e) !in order && e in parent.edges && (e.from.name in current.nodes || e.to.name in current.nodes)
    }

    /** The local neighbourhood of the selection. */
    ghost predicate Candidate(w: Waypoint)
      reads this
    {
      match w
      case N(n) => NodeCandidate(n)
      case R(e) => EdgeCandidate(e)
    }

    /** The inner loop over `current.Edges` of `Neighbourhood`: one copy of
        `n` for every selected relationship ending at `n`'s label. */
    method NodeHits(n: Node) returns (hits: seq<Waypoint>)
      ensures forall w | w in hits :: w == N(n)
      ensures |hits| > 0 <==> Incident(current.edges, n.name)
    {
      hits := [];
      var j := 0;
      while j < |current.edges|
        invariant 0 <= j <= |current.edges|
        invariant forall w | w in hits :: w == N(n)
        invariant |hits| > 0 <==> exists k | 0 <= k < j :: Touches(current.edges[k], n.name)
      {
        var e := current.edges[j];
        if n.name == e.from.name || n.name == e.to.name {
          hits := hits + [N(n)];
        }
        j := j + 1;
      }
      assert Incident(current.edges, n.name) ==> exists k | 0 <= k < j :: Touches(current.edges[k], n.name);
    }

    /** The inner loop over `current.Nodes` of `Neighbourhood`, in map order:
        one copy of `e` for every selected node labelled like an endpoint
        of `e`. */
    method EdgeHits(e: Relationship) returns (hits: seq<Waypoint>)
      requires Valid()
      ensures forall w | w in hits :: w == R(e)
      ensures |hits| > 0 <==> (e.from.name in current.nodes || e.to.name in current.nodes)
    {
      NodesOfKeys(order);
      hits := [];
      var pending := current.nodes.Keys;
      while pending != {}
        invariant pending <= current.nodes.Keys
        invariant forall w | w in hits :: w == R(e)
        invariant |hits| > 0 <==> exists k | k in current.nodes && k !in pending :: Touches(e, k)
        decreases |pending|
      {
        var k :| k in pending;
        var n := current.nodes[k];
        if n.name == e.from.name || n.name == e.to.name {
          hits := hits + [R(e)];
        }
        pending := pending - {k};
      }
    }

    /** The first loop of `Neighbourhood`, over `parent.Nodes` in map order:
        each unselected node once for every selected relationship ending at
        it. */
    method NodeNeighbours() returns (raw: seq<Waypoint>)
      requires Valid()
      ensures forall w | w in raw :: w.N? && NodeCandidate(w.node)
      ensures forall l | l in parent.nodes :: NodeCandidate(parent.nodes[l]) ==> N(parent.nodes[l]) in raw
    {
      raw := [];
      var keys := parent.nodes.Keys;
      while keys != {}
        invariant keys <= parent.nodes.Keys
        invariant forall w | w in raw :: w.N? && NodeCandidate(w.node)
        invariant forall l | l in parent.nodes && l !in keys ::
                    NodeCandidate(parent.nodes[l]) ==> N(parent.nodes[l]) in raw
        decreases |keys|
      {
        var l :| l in keys;
        var n := parent.nodes[l];
        if N(n) !in order {
          var hits := NodeHits(n);
          raw := raw + hits;
          assert NodeCandidate(n) ==> hits[0] in raw;
        }
        keys := keys - {l};
      }
    }

    /** The second loop of `Neighbourhood`, over `parent.Edges` in order:
        each unselected relationship once for every selected node labelled
        like one of its endpoints. */
    method EdgeNeighbours() returns (raw: seq<Waypoint>)
      requires Valid()
      ensures forall w | w in raw :: w.R? && EdgeCandidate(w.rel)
      ensures forall e | e in parent.edges :: EdgeCandidate(e) ==> R(e) in raw
    {
      raw := [];
      var i := 0;
      while i < |parent.edges|
        invariant 0 <= i <= |parent.edges|
        invariant forall w | w in raw :: w.R? && EdgeCandidate(w.rel)
        invariant forall k | 0 <= k < i :: EdgeCandidate(parent.edges[k]) ==> R(parent.edges[k]) in raw
      {
        var e := parent.edges[i];
        if R(e) !in order {
          var hits := EdgeHits(e);
          raw := raw + hits;
          assert EdgeCandidate(e) ==> hits[0] in raw;
        }
        i := i + 1;
      }
    }

    /** `Neighbourhood`: every unselected parent node that a selected
        relationship ends at, and every unselected parent relationship with an
        endpoint labelled like a selected node, each once (the source's
        `removeDuplicate`). */
    method Neighbourhood() returns (out: seq<Waypoint>)
      requires Valid()
      ensures Distinct(out)
      ensures forall w | w in out :: Candidate(w)
      ensures forall w | Candidate(w) :: w in out
    {
      var nodes := NodeNeighbours();
      var edges := EdgeNeighbours();
      var raw := nodes + edges;
      out := Dedup(raw);
      forall w | Candidate(w)
        ensures w in raw
      {
        if w.N? {
          assert N(parent.nodes[w.node.name]) in nodes;
        } else {
          assert R(w.rel) in edges;
        }
      }
    }

    /** No candidate is left: the neighbourhood is empty. */
    ghost predicate Enclosed()
      reads this
    {
      && (forall l | l in parent.nodes :: !NodeCandidate(parent.nodes[l]))
      && (forall e | e in parent.edges :: !EdgeCandidate(e))
    }

    /** As many elements are selected as the parent has. */
    predicate Complete()
      reads this
    {
      |order| == |parent.edges| + |parent.nodes|
    }

    /** Every element of the parent: its relationships in order, then its
        nodes in map order (the list `RandomGrow` starts an empty selection
        from). */
    method Everything() returns (all: seq<Waypoint>)
      requires parent.Valid()
      ensures |all| == |parent.edges| + |parent.nodes|
      ensures Distinct(all)
      ensures forall w | w in all :: parent.Has(w)
      ensures forall e | e in parent.edges :: R(e) in all
      ensures forall l | l in parent.nodes :: N(parent.nodes[l]) in all
    {
      all := [];
      var i := 0;
      while i < |parent.edges|
        invariant 0 <= i <= |parent.edges|
        invariant |all| == i
        invariant forall j | 0 <= j < i :: all[j] == R(parent.edges[j])
      {
        all := all + [R(parent.edges[i])];
        i := i + 1;
      }
      var keys := parent.nodes.Keys;
      while keys != {}
        invariant keys <= parent.nodes.Keys
        invariant |all| + |keys| == |parent.edges| + |parent.nodes|
        invariant Distinct(all)
        invariant forall w | w in all :: parent.Has(w)
        invariant forall w | w in all && w.N? :: w.node.name !in keys
        invariant forall e | e in parent.edges :: R(e) in all
        invariant forall l | l in parent.nodes && l !in keys :: N(parent.nodes[l]) in all
        decreases |keys|
      {
        var l :| l in keys;
        all := all + [N(parent.nodes[l])];
        keys := keys - {l};
      }
    }

    /** `RandomGrow`: select one element of the neighbourhood, chosen
        arbitrarily. An empty neighbourhood leaves everything as it is when
        the selection is complete, falls back to the whole parent when nothing
        is selected yet, and otherwise is the source's panic (`Stuck`). */
    method RandomGrow() returns (r: Growth)
      requires Valid()
      modifies this
      ensures Valid()
      ensures r.Full? <==> old(Enclosed() && Complete())
      ensures r.Stuck? <==> old(Enclosed() && !Complete() && |order| > 0)
      ensures r.Added? ==>
                && order == old(order) + [r.w]
                && r.w !in old(order) && parent.Has(r.w)
                && (|old(order)| > 0 ==> old(Candidate(r.w)))
      ensures r.Added? ==>
                current == match r.w
                           case N(n) => GraphVal(old(current.nodes)[n.name := n], old(current.edges))
                           case R(e) => GraphVal(old(current.nodes), old(current.edges) + [e])
      ensures !r.Added? ==> order == old(order) && current == old(current)
    {
      var neighbours := Neighbourhood();
      assert |neighbours| == 0 <==> Enclosed() by {
        if |neighbours| == 0 {
          forall l | l in parent.nodes
            ensures !NodeCandidate(parent.nodes[l])
          {
            assert !Candidate(N(parent.nodes[l]));
          }
          forall e | e in parent.edges
            ensures !EdgeCandidate(e)
          {
            assert !Candidate(R(e));
          }
        } else {
          var u := neighbours[0];
          assert Candidate(u);
          if u.N? {
            assert parent.nodes[u.node.name] == u.node;
          }
        }
      }
      if |neighbours| == 0 {
        if |order| == |parent.edges| + |parent.nodes| {
          return Full;
        }
        if |order| == 0 {
          neighbours := Everything();
        }
      }
      if |neighbours| == 0 {
        return Stuck;
      }
      var toPick :| 0 <= toPick < |neighbours|;
      var w := neighbours[toPick];
      assert w in neighbours;
      order := order + [w];
      assert order[..|order| - 1] == old(order);
      match w {
        case N(n) =>
          current := GraphVal(current.nodes[n.name := n], current.edges);
        case R(e) =>
          current := GraphVal(current.nodes, current.edges + [e]);
      }
      return Added(w);
    }

    /** `k` successive calls of `RandomGrow` over a connected schema, as a
        caller growing a subgraph makes them: each call adds one element
        until all `N + M` are selected, and later calls change nothing.
        From the single node of `GetSubGraphStartingNode`, `N + M - 1`
        calls select every node and relationship, each once. */
    method GrowTimes(k: nat)
      requires Valid() && |order| > 0 && Connected(parent)
      modifies this
      ensures Valid()
      ensures |order| == if old(|order|) + k < |parent.edges| + |parent.nodes|
                         then old(|order|) + k else |parent.edges| + |parent.nodes|
      ensures old(order) <= order
      ensures old(|order|) + k >= |parent.edges| + |parent.nodes| ==>
                && (forall l | l in parent.nodes :: N(parent.nodes[l]) in order)
                && (forall e | e in parent.edges :: R(e) in order)
    {
      var total := |parent.edges| + |parent.nodes|;
      SelectionBound(parent, order);
      for i := 0 to k
        invariant Valid() && |order| > 0
        invariant |order| == if old(|order|) + i < total then old(|order|) + i else total
        invariant old(order) <= order
      {
        if Complete() {
          CompleteIsEnclosed(this);
        } else {
          SelectionBound(parent, order);
          ConnectedNotEnclosed(this);
        }
        var r := RandomGrow();
      }
      if old(|order|) + k >= total {
        CompleteSelectsAll(parent, order);
      }
    }

    /** `visit` lists the selected elements, each once, in the order the
        source's iteration over the `order` map happens to take. */
    ghost predicate Enumerates(visit: seq<Waypoint>)
      reads this
    {
      Distinct(visit) && |visit| == |order| && forall w | w in visit :: w in order
    }

    /** `AllDifferentQuery`: visit the selection in `visit` order, give each
        node the next variable and each relationship the next two, and join
        the non-empty texts with ", ". `coins` are the random draws of the
        stars. */
    method AllDifferentQuery(visit: seq<Waypoint>, coins: seq<bool>) returns (out: string)
      requires Valid() && Enumerates(visit) && |coins| == |visit|
      modifies Objects(visit)
      ensures out == Join(DropEmpty(FreshTexts(visit, coins, |visit|)), ", ")
      ensures forall j | 0 <= j < |visit| :: FreshAssigned(visit[j], Offset(visit, j))
    {
      var sb: seq<string> := [];
      var count := 0;
      var i := 0;
      while i < |visit|
        invariant 0 <= i <= |visit|
        invariant FreshVisited(visit, coins, i, sb, count)
      {
        assert visit[i].Obj() in Objects(visit);
        sb, count := VisitFresh(visit, coins, i, sb, count);
        i := i + 1;
      }
      out := Join(DropEmpty(sb), ", ");
    }

    /** `MaximallyJoined`: visit the selection in `visit` order, numbering
        node labels on first sight (`nodeMapping`, `innerCount`), give each
        node its label's variable and each relationship the variables of its
        ends' labels, and join the non-empty texts with ", ". */
    method MaximallyJoined(visit: seq<Waypoint>, coins: seq<bool>) returns (out: string)
      requires Valid() && Enumerates(visit) && |coins| == |visit|
      modifies Objects(visit)
      ensures out == Join(DropEmpty(JoinedTexts(visit, coins, |visit|)), ", ")
      ensures forall j | 0 <= j < |visit| :: JoinAssigned(visit[j], JoinsBefore(visit, j))
    {
      var sb: seq<string> := [];
      var innerCount := 1;
      var nodeMapping: map<string, int> := map[];
      var i := 0;
      while i < |visit|
        invariant 0 <= i <= |visit|
        invariant JoinVisited(visit, coins, i, sb, Joins(nodeMapping, innerCount))
      {
        assert visit[i].Obj() in Objects(visit);
        sb, nodeMapping, innerCount := VisitJoined(visit, coins, i, sb, nodeMapping, innerCount);
        i := i + 1;
      }
      out := Join(DropEmpty(sb), ", ");
    }

    /** `GetNthElement`: the element selected at `index`, found by a pass
        over the whole selection in an unspecified order; no element (and no
        error) for an index that is negative or equal to the number selected,
        an error only past that. */
    method GetNthElement(index: int) returns (r: Result<Option<Waypoint>, SubgraphError>)
      requires Valid()
      ensures r.Failure? <==> index > |order|
      ensures r.Failure? ==> r.error == OutOfBounds
      ensures r.Success? ==> r.value == if 0 <= index < |order| then Some(order[index]) else None
    {
      if index > |order| {
        return Failure(OutOfBounds);
      }
      var el: Option<Waypoint> := None;
      var pending := set w | w in order;
      while pending != {}
        invariant forall w | w in pending :: w in order
        invariant el == if 0 <= index < |order| && order[index] !in pending then Some(order[index]) else None
        decreases |pending|
      {
        var w :| w in pending;
        if IndexOf(order, w) == index {
          el := Some(w);
        }
        pending := pending - {w};
      }
      return Success(el);
    }
  }

  /** The distinct elements of a sequence number as many as its length. */
  lemma {:induction false} DistinctCard(ws: seq<Waypoint>)
    requires Distinct(ws)
    ensures |set w | w in ws| == |ws|
  {
    if |ws| > 0 {
      var init := ws[..|ws| - 1];
      DistinctCard(init);
      assert (set w | w in ws) == (set w | w in init) + {ws[|ws| - 1]};
    }
  }

  /** The nodes stored under some labels are at most as many as the labels,
      and exactly as many when each is stored under its own label. */
  lemma {:induction false} NodeImageCard(keys: set<string>, m: map<string, Node>)
    requires keys <= m.Keys
    ensures |set l | l in keys :: N(m[l])| <= |keys|
    ensures (forall l | l in keys :: m[l].name == l) ==> |set l | l in keys :: N(m[l])| == |keys|
    decreases |keys|
  {
    if keys != {} {
      var k :| k in keys;
      NodeImageCard(keys - {k}, m);
      assert (set l | l in keys :: N(m[l])) == (set l | l in keys - {k} :: N(m[l])) + {N(m[k])};
      if forall l | l in keys :: m[l].name == l {
        assert N(m[k]) !in (set l | l in keys - {k} :: N(m[l]));
      }
    }
  }

  /** The relationships of a list are at most as many as its entries, and
      exactly as many when none is listed twice. */
  lemma {:induction false} RelImageCard(es: seq<Relationship>)
    ensures |set e | e in es :: R(e)| <= |es|
    ensures Distinct(es) ==> |set e | e in es :: R(e)| == |es|
  {
    if |es| > 0 {
      var init := es[..|es| - 1];
      RelImageCard(init);
      assert (set e | e in es :: R(e)) == (set e | e in init :: R(e)) + {R(es[|es| - 1])};
      if Distinct(es) {
        assert R(es[|es| - 1]) !in (set e | e in init :: R(e));
      }
    }
  }

  /** Every node and relationship of `g`. */
  ghost function Elements(g: GraphVal): set<Waypoint>
  {
    (set l | l in g.nodes :: N(g.nodes[l])) + (set e | e in g.edges :: R(e))
  }

  /** A graph has at most as many elements as labels plus relationships,
      and exactly as many when it is valid. */
  lemma ElementsCard(g: GraphVal)
    ensures |Elements(g)| <= |g.nodes| + |g.edges|
    ensures g.Valid() ==> |Elements(g)| == |g.nodes| + |g.edges|
  {
    NodeImageCard(g.nodes.Keys, g.nodes);
    RelImageCard(g.edges);
    var ns, rs := set l | l in g.nodes :: N(g.nodes[l]), set e | e in g.edges :: R(e);
    assert ns !! rs;
  }

  /** What a selection holds lies in its graph. */
  lemma SelectedWithin(g: GraphVal, ws: seq<Waypoint>)
    requires forall w | w in ws :: g.Has(w)
    ensures (set w | w in ws) <= Elements(g)
  {
    forall w | w in ws
      ensures w in Elements(g)
    {
      if w.N? {
        assert N(g.nodes[w.node.name]) in Elements(g);
      }
    }
  }

  /** A selection as large as its graph holds every node and relationship of
      the graph: the size test at the start of `RandomGrow` means "everything
      is selected". */
  lemma CompleteSelectsAll(g: GraphVal, ws: seq<Waypoint>)
    requires Selection(g, ws) && |ws| == |g.edges| + |g.nodes|
    ensures forall l | l in g.nodes :: N(g.nodes[l]) in ws
    ensures forall e | e in g.edges :: R(e) in ws
  {
    DistinctCard(ws);
    ElementsCard(g);
    SelectedWithin(g, ws);
    var selected := set w | w in ws;
    Pigeonhole(selected, Elements(g));
    forall l | l in g.nodes
      ensures N(g.nodes[l]) in ws
    {
      assert N(g.nodes[l]) in Elements(g);
      assert N(g.nodes[l]) in selected;
    }
    forall e | e in g.edges
      ensures R(e) in ws
    {
      assert R(e) in Elements(g);
      assert R(e) in selected;
    }
  }

  /** The size test and the empty neighbourhood agree: a complete selection
      has no candidate left, so `RandomGrow` returns `Full` exactly when the
      selection is complete. */
  lemma CompleteIsEnclosed(s: Subgraph)
    requires s.Valid() && s.Complete()
    ensures s.Enclosed()
  {
    CompleteSelectsAll(s.parent, s.order);
  }

  /** In a schema without relationships, a started but incomplete selection
      has an empty neighbourhood and is not complete: `RandomGrow` reaches the
      source's `Intn(0)` panic (`Stuck`). */
  lemma NoRelationshipsStuck(s: Subgraph)
    requires s.Valid() && s.parent.edges == [] && 0 < |s.order| < |s.parent.nodes|
    ensures s.Enclosed() && !s.Complete()
  {
    RelsOfMembers(s.order);
    assert forall e | e in s.current.edges :: s.parent.Has(R(e));
  }

  // ---------------------------------------------------------------------
  // Growth over a connected schema
  // ---------------------------------------------------------------------

  /** A place in a schema graph named without object references: a node
      label, or a position in the relationship list. */
  datatype Place = Label(l: string) | Edge(k: nat)

  /** `x` names an element of `g`. */
  ghost predicate InGraph(g: GraphVal, x: Place)
  {
    match x
    case Label(l) => l in g.nodes
    case Edge(k) => k < |g.edges|
  }

  /** The element of `g` that `x` names. */
  ghost function At(g: GraphVal, x: Place): Waypoint
    requires InGraph(g, x)
  {
    match x
    case Label(l) => N(g.nodes[l])
    case Edge(k) => R(g.edges[k])
  }

  /** A label and a relationship with an endpoint of that label: the
      neighbourhood rule of `Neighbourhood` in both directions. */
  ghost predicate Adjacent(g: GraphVal, x: Place, y: Place)
    requires InGraph(g, x) && InGraph(g, y)
  {
    match x
    case Label(l) => y.Edge? && Touches(g.edges[y.k], l)
    case Edge(k) => y.Label? && Touches(g.edges[k], y.l)
  }

  /** `p` is a non-empty chain of places of `g`, each adjacent to the
      next. */
  ghost predicate Chain(g: GraphVal, p: seq<Place>)
  {
    && |p| > 0
    && (forall i | 0 <= i < |p| :: InGraph(g, p[i]))
    && (forall i | 0 <= i < |p| - 1 :: Adjacent(g, p[i], p[i + 1]))
  }

  /** Every element of `g` is reached from every other by a chain. */
  ghost predicate Connected(g: GraphVal)
  {
    forall x, y | InGraph(g, x) && InGraph(g, y) ::
      exists p | Chain(g, p) :: p[0] == x && p[|p| - 1] == y
  }

  /** A chain from a selected element to an unselected one leaves the
      selection somewhere: a selected element is followed by an unselected
      one. */
  lemma {:induction false} ChainLeaves(g: GraphVal, p: seq<Place>, ws: seq<Waypoint>) returns (i: nat)
    requires Chain(g, p) && At(g, p[0]) in ws && At(g, p[|p| - 1]) !in ws
    ensures i < |p| - 1 && At(g, p[i]) in ws && At(g, p[i + 1]) !in ws
  {
    var n := |p|;
    if At(g, p[n - 2]) in ws {
      i := n - 2;
    } else {
      var q := p[..n - 1];
      assert Chain(g, q);
      i := ChainLeaves(g, q, ws);
      assert q[i] == p[i] && q[i + 1] == p[i + 1];
    }
  }

  /** A subset has at most the elements of its superset, and the superset
      has the rest. */
  lemma SubsetCard(sub: set<Waypoint>, all: set<Waypoint>)
    requires sub <= all
    ensures |all| == |sub| + |all - sub|
  {
    assert all == sub + (all - sub);
  }

  /** A valid selection has at most as many elements as its graph. */
  lemma SelectionBound(g: GraphVal, ws: seq<Waypoint>)
    requires g.Valid() && Selection(g, ws)
    ensures |ws| <= |g.edges| + |g.nodes|
  {
    DistinctCard(ws);
    SelectedWithin(g, ws);
    ElementsCard(g);
    SubsetCard((set w | w in ws), Elements(g));
  }

  /** An incomplete selection leaves some element of the parent out. */
  lemma Unselected(s: Subgraph) returns (u: Waypoint)
    requires s.Valid() && !s.Complete()
    ensures u in Elements(s.parent) && u !in s.order
  {
    DistinctCard(s.order);
    SelectedWithin(s.parent, s.order);
    ElementsCard(s.parent);
    var selected := set w | w in s.order;
    SubsetCard(selected, Elements(s.parent));
    var rest := Elements(s.parent) - selected;
    assert |rest| > 0;
    u :| u in rest;
  }

  /** Over a connected schema, a started but incomplete selection always
      has a neighbour: `RandomGrow` never reaches the `Intn(0)` panic and
      adds one element per call until everything is selected. */
  lemma ConnectedNotEnclosed(s: Subgraph)
    requires s.Valid() && |s.order| > 0 && Connected(s.parent) && !s.Complete()
    ensures !s.Enclosed()
  {
    var g := s.parent;
    var u := Unselected(s);
    SelectedWithin(g, s.order);
    var x := PlaceOf(g, s.order[0]);
    var y := PlaceOf(g, u);
    var a, b := Exit(g, s.order, x, y);
    ExitIsCandidate(s, a, b);
  }

  /** In a connected graph, a selection that holds the element at `x` but
      not the one at `y` has a selected element next to an unselected one. */
  lemma Exit(g: GraphVal, ws: seq<Waypoint>, x: Place, y: Place) returns (a: Place, b: Place)
    requires Connected(g) && InGraph(g, x) && InGraph(g, y)
    requires At(g, x) in ws && At(g, y) !in ws
    ensures InGraph(g, a) && InGraph(g, b) && Adjacent(g, a, b)
    ensures At(g, a) in ws && At(g, b) !in ws
  {
    var p :| Chain(g, p) && p[0] == x && p[|p| - 1] == y;
    var i := ChainLeaves(g, p, ws);
    a, b := p[i], p[i + 1];
    assert InGraph(g, a) && InGraph(g, b);
  }

  /** An unselected element adjacent to a selected one is a candidate. */
  lemma ExitIsCandidate(s: Subgraph, x: Place, y: Place)
    requires s.Valid() && InGraph(s.parent, x) && InGraph(s.parent, y)
    requires Adjacent(s.parent, x, y) && At(s.parent, x) in s.order && At(s.parent, y) !in s.order
    ensures !s.Enclosed()
  {
    var g := s.parent;
    match y {
      case Label(l) =>
        RelsOfMembers(s.order);
        var e := g.edges[x.k];
        assert Touches(e, l) && e in s.current.edges;
        assert s.NodeCandidate(g.nodes[l]);
      case Edge(k) =>
        NodesOfKeys(s.order);
        assert g.nodes[x.l].name in s.current.nodes;
        assert s.EdgeCandidate(g.edges[k]);
    }
  }

  /** Every element of a valid graph has a place naming it. */
  lemma PlaceOf(g: GraphVal, w: Waypoint) returns (x: Place)
    requires g.Valid() && w in Elements(g)
    ensures InGraph(g, x) && At(g, x) == w
  {
    if w.N? {
      x := Label(w.node.name);
      var l :| l in g.nodes && N(g.nodes[l]) == w;
    } else {
      var k :| 0 <= k < |g.edges| && g.edges[k] == w.rel;
      x := Edge(k);
    }
  }

  /** A subset at least as large as its superset is all of it. */
  lemma Pigeonhole(sub: set<Waypoint>, all: set<Waypoint>)
    requires sub <= all && |all| <= |sub|
    ensures sub == all
  {
    assert all == sub + (all - sub);
  }

  /** Different elements are different objects, so writing the slots of one
      leaves the others' alone. */
  lemma ObjectsApart(ws: seq<Waypoint>, i: nat)
    requires Distinct(ws) && i < |ws|
    ensures forall j | 0 <= j < |ws| && j != i :: ws[j].Obj() != ws[i].Obj()
  {
    forall j | 0 <= j < |ws| && j != i
      ensures ws[j].Obj() != ws[i].Obj()
    {
      assert ws[j] != ws[i];
    }
  }

  /** The state of `AllDifferentQuery` after visiting `i` elements: the
      count, the texts, and the slots written so far. */
  ghost predicate FreshVisited(ws: seq<Waypoint>, coins: seq<bool>, i: nat, sb: seq<string>, count: int)
    requires i <= |ws| && |coins| == |ws|
    reads Objects(ws)
  {
    && count == Offset(ws, i)
    && sb == FreshTexts(ws, coins, i)
    && forall j | 0 <= j < i :: FreshAssigned(ws[j], Offset(ws, j))
  }

  /** The slot writes of one pass of `AllDifferentQuery`: the next variable
      for a node, the next two for a relationship. */
  method AssignFresh(wp: Waypoint, count: int) returns (count': int)
    modifies wp.Obj()
    ensures FreshAssigned(wp, count)
    ensures count' == count + Width(wp)
  {
    count' := count;
    var name := ConvertToAlphabetic(count' + 1);
    wp.SetLabelFrom(name);
    if wp.R? {
      count' := count' + 1;
      name := ConvertToAlphabetic(count' + 1);
      wp.SetLabelTo(name);
    }
    count' := count' + 1;
  }

  /** One pass of the loop of `AllDifferentQuery`. */
  method VisitFresh(ws: seq<Waypoint>, coins: seq<bool>, i: nat, sb: seq<string>, count: int)
    returns (sb': seq<string>, count': int)
    requires Distinct(ws) && i < |ws| && |coins| == |ws|
    requires FreshVisited(ws, coins, i, sb, count)
    modifies ws[i].Obj()
    ensures FreshVisited(ws, coins, i + 1, sb', count')
  {
    var wp := ws[i];
    ObjectsApart(ws, i);
    count' := AssignFresh(wp, count);
    FreshTextOfSlots(wp, coins[i], count);
    sb' := sb + [wp.StringRep(coins[i])];
    forall j | 0 <= j < i
      ensures FreshAssigned(ws[j], Offset(ws, j))
    {
      var w, off := ws[j], Offset(ws, j);
      assert old(FreshAssigned(w, off));
      match w {
        case N(n) => assert n.varFrom == old(n.varFrom);
        case R(e) => assert e.varFrom == old(e.varFrom) && e.varTo == old(e.varTo);
      }
    }
  }

  /** The state of `MaximallyJoined` after visiting `i` elements: the
      numbering, the texts, and the slots written so far. */
  ghost predicate JoinVisited(ws: seq<Waypoint>, coins: seq<bool>, i: nat, sb: seq<string>, j: Joins)
    requires i <= |ws| && |coins| == |ws|
    reads Objects(ws)
  {
    && j == JoinsBefore(ws, i)
    && sb == JoinedTexts(ws, coins, i)
    && forall k | 0 <= k < i :: JoinAssigned(ws[k], JoinsBefore(ws, k))
  }

  /** The numbering and slot writes of one pass of `MaximallyJoined`. */
  method AssignJoined(wp: Waypoint, nodeMapping: map<string, int>, innerCount: int)
    returns (nodeMapping': map<string, int>, innerCount': int)
    modifies wp.Obj()
    ensures JoinAssigned(wp, Joins(nodeMapping, innerCount))
    ensures Joins(nodeMapping', innerCount') == JoinStep(Joins(nodeMapping, innerCount), wp)
  {
    nodeMapping', innerCount' := nodeMapping, innerCount;
    match wp {
      case N(n) =>
        if n.name !in nodeMapping' {
          nodeMapping' := nodeMapping'[n.name := innerCount'];
          innerCount' := innerCount' + 1;
        }
        var name := ConvertToAlphabetic(nodeMapping'[n.name]);
        wp.SetLabelFrom(name);
      case R(e) =>
        var ok1, ok2 := e.from.name in nodeMapping', e.to.name in nodeMapping';
        var numFrom := if ok1 then nodeMapping'[e.from.name] else 0;
        var numTo := if ok2 then nodeMapping'[e.to.name] else 0;
        if !ok1 {
          nodeMapping' := nodeMapping'[e.from.name := innerCount'];
          innerCount' := innerCount' + 1;
          numFrom := nodeMapping'[e.from.name];
        }
        if !ok2 {
          nodeMapping' := nodeMapping'[e.to.name := innerCount'];
          innerCount' := innerCount' + 1;
          numTo := nodeMapping'[e.to.name];
        }
        var nameFrom := ConvertToAlphabetic(numFrom);
        var nameTo := ConvertToAlphabetic(numTo);
        wp.SetLabelFrom(nameFrom);
        wp.SetLabelTo(nameTo);
    }
  }

  /** One pass of the loop of `MaximallyJoined`. */
  method VisitJoined(ws: seq<Waypoint>, coins: seq<bool>, i: nat, sb: seq<string>,
                     nodeMapping: map<string, int>, innerCount: int)
    returns (sb': seq<string>, nodeMapping': map<string, int>, innerCount': int)
    requires Distinct(ws) && i < |ws| && |coins| == |ws|
    requires JoinVisited(ws, coins, i, sb, Joins(nodeMapping, innerCount))
    modifies ws[i].Obj()
    ensures JoinVisited(ws, coins, i + 1, sb', Joins(nodeMapping', innerCount'))
  {
    var wp := ws[i];
    ObjectsApart(ws, i);
    nodeMapping', innerCount' := AssignJoined(wp, nodeMapping, innerCount);
    JoinedTextOfSlots(wp, coins[i], JoinsBefore(ws, i));
    sb' := sb + [wp.StringRep(coins[i])];
    forall k | 0 <= k < i
      ensures JoinAssigned(ws[k], JoinsBefore(ws, k))
    {
      var w, j := ws[k], JoinsBefore(ws, k);
      assert old(JoinAssigned(w, j));
      match w {
        case N(n) => assert n.varFrom == old(n.varFrom);
        case R(e) => assert e.varFrom == old(e.varFrom) && e.varTo == old(e.varTo);
      }
    }
  }

  /** The index of `w` in `ws`: in a selection, the value `order` maps it to. */
  function IndexOf(ws: seq<Waypoint>, w: Waypoint): (i: nat)
    requires w in ws
    ensures i < |ws| && ws[i] == w
  {
    if ws[0] == w then 0 else 1 + IndexOf(ws[1..], w)
  }

  /** `Graph.GetSubGraphStartingNode`: a subgraph whose only selected element
      is the node labelled `key`, or an error when there is none. */
  method GetSubGraphStartingNode(g: GraphVal, key: string) returns (r: Result<Subgraph, SubgraphError>)
    requires g.Valid()
    ensures r.Failure? <==> key !in g.nodes
    ensures r.Failure? ==> r.error == NoSuchLabel
    ensures r.Success? ==>
              && fresh(r.value) && r.value.Valid() && r.value.parent == g
              && r.value.order == [N(g.nodes[key])]
              && r.value.current == GraphVal(map[key := g.nodes[key]], [])
  {
    if key !in g.nodes {
      return Failure(NoSuchLabel);
    }
    var node := g.nodes[key];
    var out := new Subgraph(g);
    out.AddNode(node);
    return Success(out);
  }
}
