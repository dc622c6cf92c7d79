/** What the two subgraph renderers of subgraph.go write, as functions of the
    order in which they visit the selected elements: `AllDifferentQuery`
    gives every binding slot a variable of its own, `MaximallyJoined` gives
    every node label one variable shared by all elements that mention it. */
module SubgraphQueries {
  import opened Letters
  import opened SubgraphGen

  // ---------------------------------------------------------------------
  // AllDifferentQuery
  // ---------------------------------------------------------------------

  /** How many variables an element takes: one for a node, two for a
      relationship. */
  function Width(w: Waypoint): nat
  {
    if w.N? then 1 else 2
  }

  /** The running count of `AllDifferentQuery` before the element at `i`:
      the variables handed out to the elements visited earlier. */
  function Offset(ws: seq<Waypoint>, i: nat): nat
    requires i <= |ws|
  {
    if i == 0 then 0 else Offset(ws, i - 1) + Width(ws[i - 1])
  }

  /** The variables an element visited at count `off` is given. */
  function FreshNames(w: Waypoint, off: int): set<string>
  {
    if w.N? then {Enc(off + 1)} else {Enc(off + 1), Enc(off + 2)}
  }

  /** The text of an element visited at count `off`. */
  function FreshText(w: Waypoint, star: bool, off: int): string
  {
    match w
    case N(n) => NodeText(n.name, n.unlabelled, Enc(off + 1))
    case R(e) => RelText(e.name, star && e.Reflexive(), Enc(off + 1), Enc(off + 2))
  }

  /** The texts of the first `i` visited elements. */
  function FreshTexts(ws: seq<Waypoint>, coins: seq<bool>, i: nat): seq<string>
    requires i <= |ws| && |coins| == |ws|
  {
    if i == 0 then [] else FreshTexts(ws, coins, i - 1) + [FreshText(ws[i - 1], coins[i - 1], Offset(ws, i - 1))]
  }

  /** The binding slots of `w` hold the variables of count `off`. */
  ghost predicate FreshAssigned(w: Waypoint, off: int)
    reads w.Obj()
  {
    match w
    case N(n) => n.varFrom == Enc(off + 1)
    case R(e) => e.varFrom == Enc(off + 1) && e.varTo == Enc(off + 2)
  }

  /** An element's text, read from its slots once they are assigned. */
  lemma FreshTextOfSlots(w: Waypoint, star: bool, off: int)
    requires FreshAssigned(w, off)
    ensures w.StringRep(star) == FreshText(w, star, off)
  {
  }

  /** Every element visited later starts counting where the earlier one's
      variables end. */
  lemma {:induction false} OffsetGrows(ws: seq<Waypoint>, j: nat, k: nat)
    requires j < k <= |ws|
    ensures Offset(ws, j) + Width(ws[j]) <= Offset(ws, k)
    decreases k
  {
    if k > j + 1 {
      OffsetGrows(ws, j, k - 1);
    }
  }

  /** A node gets one variable and a relationship two different ones. */
  lemma FreshNamesCount(w: Waypoint, off: nat)
    ensures |FreshNames(w, off)| == Width(w)
  {
    if w.R? {
      EncInjective(off + 1, off + 2);
    }
  }

  /** Elements counted from ranges that do not overlap get disjoint
      variables. */
  lemma NamesApart(v: Waypoint, a: nat, w: Waypoint, b: nat)
    requires a + Width(v) <= b
    ensures FreshNames(v, a) !! FreshNames(w, b)
  {
    NameApart(a + 1, w, b);
    if v.R? {
      NameApart(a + 2, w, b);
    }
  }

  /** The variable of count `k` is not among those of an element counted
      from a later `off`. */
  lemma NameApart(k: nat, w: Waypoint, off: nat)
    requires 0 < k <= off
    ensures Enc(k) !in FreshNames(w, off)
  {
    EncInjective(k, off + 1);
    if w.R? {
      EncInjective(k, off + 2);
    }
  }

  /** The property the renderer is named for: no two elements share a
      variable. */
  lemma AllDifferent(ws: seq<Waypoint>, j: nat, k: nat)
    requires j < k < |ws|
    ensures FreshNames(ws[j], Offset(ws, j)) !! FreshNames(ws[k], Offset(ws, k))
  {
    OffsetGrows(ws, j, k);
    NamesApart(ws[j], Offset(ws, j), ws[k], Offset(ws, k));
  }

  /** The variables handed out to the first `i` visited elements. */
  function UsedNames(ws: seq<Waypoint>, i: nat): set<string>
    requires i <= |ws|
  {
    if i == 0 then {} else UsedNames(ws, i - 1) + FreshNames(ws[i - 1], Offset(ws, i - 1))
  }

  /** The counter hands out the names without gaps: the first `i` elements
      use the name of every count from 1 to `Offset(ws, i)`. */
  lemma {:induction false} UsedNamesCover(ws: seq<Waypoint>, i: nat)
    requires i <= |ws|
    ensures forall k | 1 <= k <= Offset(ws, i) :: Enc(k) in UsedNames(ws, i)
  {
    if i > 0 {
      UsedNamesCover(ws, i - 1);
      var off := Offset(ws, i - 1);
      var added := FreshNames(ws[i - 1], off);
      assert UsedNames(ws, i) == UsedNames(ws, i - 1) + added;
      forall k | 1 <= k <= Offset(ws, i)
        ensures Enc(k) in UsedNames(ws, i)
      {
        if k == off + 1 {
          assert Enc(k) in added;
        } else if k == off + 2 {
          assert Enc(k) in added;
        }
      }
    }
  }

  /** ... and no other names: every name the first `i` elements use is that
      of a count from 1 to `Offset(ws, i)`. */
  lemma {:induction false} UsedNamesWithin(ws: seq<Waypoint>, i: nat)
    requires i <= |ws|
    ensures forall x | x in UsedNames(ws, i) :: 1 <= Dec(x) <= Offset(ws, i) && x == Enc(Dec(x))
  {
    if i > 0 {
      UsedNamesWithin(ws, i - 1);
      var off := Offset(ws, i - 1);
      var added := FreshNames(ws[i - 1], off);
      FreshNamesDecode(ws[i - 1], off);
      forall x | x in UsedNames(ws, i)
        ensures 1 <= Dec(x) <= Offset(ws, i) && x == Enc(Dec(x))
      {
        if x !in added {
          assert x in UsedNames(ws, i - 1);
        }
      }
    }
  }

  /** The names an element visited at count `off` is given are those of the
      counts just after `off`. */
  lemma FreshNamesDecode(w: Waypoint, off: nat)
    ensures forall x | x in FreshNames(w, off) :: off < Dec(x) <= off + Width(w) && x == Enc(Dec(x))
  {
    DecEnc(off + 1);
    DecEnc(off + 2);
  }

  /** The node elements of a list. */
  function NodeCount(ws: seq<Waypoint>): nat
  {
    if |ws| == 0 then 0 else (if ws[0].N? then 1 else 0) + NodeCount(ws[1..])
  }

  /** The relationship elements of a list. */
  function RelCount(ws: seq<Waypoint>): nat
  {
    if |ws| == 0 then 0 else (if ws[0].R? then 1 else 0) + RelCount(ws[1..])
  }

  lemma {:induction false} CountsAppend(ws: seq<Waypoint>, w: Waypoint)
    ensures NodeCount(ws + [w]) == NodeCount(ws) + (if w.N? then 1 else 0)
    ensures RelCount(ws + [w]) == RelCount(ws) + (if w.R? then 1 else 0)
  {
    if |ws| > 0 {
      assert (ws + [w])[1..] == ws[1..] + [w];
      CountsAppend(ws[1..], w);
    }
  }

  /** The counter after `i` elements: one per node and two per
      relationship among them. */
  lemma {:induction false} OffsetCounts(ws: seq<Waypoint>, i: nat)
    requires i <= |ws|
    ensures Offset(ws, i) == NodeCount(ws[..i]) + 2 * RelCount(ws[..i])
  {
    if i > 0 {
      OffsetCounts(ws, i - 1);
      assert ws[..i] == ws[..i - 1] + [ws[i - 1]];
      CountsAppend(ws[..i - 1], ws[i - 1]);
    }
  }

  /** `AllDifferentQuery` uses exactly the names `Enc(1)` to `Enc(n)`, where
      `n` is the number of nodes plus twice the number of relationships
      visited, whatever the visiting order: each of them, and each name it
      uses is one of them. */
  lemma AllDifferentRange(ws: seq<Waypoint>)
    ensures forall k | 1 <= k <= NodeCount(ws) + 2 * RelCount(ws) :: Enc(k) in UsedNames(ws, |ws|)
    ensures forall x | x in UsedNames(ws, |ws|) ::
              1 <= Dec(x) <= NodeCount(ws) + 2 * RelCount(ws) && x == Enc(Dec(x))
  {
    UsedNamesCover(ws, |ws|);
    UsedNamesWithin(ws, |ws|);
    OffsetCounts(ws, |ws|);
    assert ws[..|ws|] == ws;
  }

  // ---------------------------------------------------------------------
  // MaximallyJoined
  // ---------------------------------------------------------------------

  /** The state of `MaximallyJoined`: the variable number of each node label
      seen so far (`nodeMapping`) and the next unused number
      (`innerCount`). */
  datatype Joins = Joins(mapping: map<string, int>, next: int)

  /** The numbering before anything is visited. */
  const NoJoins := Joins(map[], 1)

  /** The number a node labelled `l` gets: the label's number, or the next
      unused one. Also the number of a relationship's `from` end. */
  function Num(j: Joins, l: string): int
  {
    if l in j.mapping then j.mapping[l] else j.next
  }

  /** The number of a relationship's `to` end. Both ends are looked up before
      either is numbered, so the `to` end of a reflexive relationship on an
      unseen label gets the number after its `from` end. */
  function ToNum(j: Joins, e: Relationship): int
  {
    if e.to.name in j.mapping then j.mapping[e.to.name]
    else if e.from.name in j.mapping then j.next
    else j.next + 1
  }

  /** The numbering after visiting `w`. */
  function JoinStep(j: Joins, w: Waypoint): Joins
  {
    match w
    case N(n) =>
      if n.name in j.mapping then j else Joins(j.mapping[n.name := j.next], j.next + 1)
    case R(e) =>
      var j1 := if e.from.name in j.mapping then j else Joins(j.mapping[e.from.name := j.next], j.next + 1);
      if e.to.name in j.mapping then j1 else Joins(j1.mapping[e.to.name := j1.next], j1.next + 1)
  }

  /** The numbering before the element at `i`. */
  function JoinsBefore(ws: seq<Waypoint>, i: nat): Joins
    requires i <= |ws|
  {
    if i == 0 then NoJoins else JoinStep(JoinsBefore(ws, i - 1), ws[i - 1])
  }

  /** The text of `w` under the numbering `j`. */
  function JoinedText(w: Waypoint, star: bool, j: Joins): string
  {
    match w
    case N(n) => NodeText(n.name, n.unlabelled, Enc(Num(j, n.name)))
    case R(e) => RelText(e.name, star && e.Reflexive(), Enc(Num(j, e.from.name)), Enc(ToNum(j, e)))
  }

  /** The texts of the first `i` visited elements. */
  function JoinedTexts(ws: seq<Waypoint>, coins: seq<bool>, i: nat): seq<string>
    requires i <= |ws| && |coins| == |ws|
  {
    if i == 0 then [] else JoinedTexts(ws, coins, i - 1) + [JoinedText(ws[i - 1], coins[i - 1], JoinsBefore(ws, i - 1))]
  }

  /** The binding slots of `w` hold the variables of numbering `j`. */
  ghost predicate JoinAssigned(w: Waypoint, j: Joins)
    reads w.Obj()
  {
    match w
    case N(n) => n.varFrom == Enc(Num(j, n.name))
    case R(e) => e.varFrom == Enc(Num(j, e.from.name)) && e.varTo == Enc(ToNum(j, e))
  }

  /** An element's text, read from its slots once they are assigned. */
  lemma JoinedTextOfSlots(w: Waypoint, star: bool, j: Joins)
    requires JoinAssigned(w, j)
    ensures w.StringRep(star) == JoinedText(w, star, j)
  {
  }

  /** Numbers handed out are positive, below the next one, and never shared
      by two labels. */
  ghost predicate Numbered(j: Joins)
  {
    && j.next >= 1
    && (forall l | l in j.mapping :: 1 <= j.mapping[l] < j.next)
    && (forall a, b | a in j.mapping && b in j.mapping && a != b :: j.mapping[a] != j.mapping[b])
  }

  /** `l` keeps the number it has in `j` in `j'`. */
  ghost predicate Keeps(j: Joins, j': Joins)
  {
    forall l | l in j.mapping :: l in j'.mapping && j'.mapping[l] == j.mapping[l]
  }

  /** One step keeps the numbering well formed, never renumbers a label, and
      afterwards the labels of the visited element carry the numbers it was
      given (both ends but the `from` end of a reflexive relationship on an
      unseen label, whose number is superseded by its `to` end's). */
  lemma StepNumbered(j: Joins, w: Waypoint)
    requires Numbered(j)
    ensures Numbered(JoinStep(j, w))
    ensures JoinStep(j, w).next >= j.next
    ensures Keeps(j, JoinStep(j, w))
    ensures w.N? ==> w.node.name in JoinStep(j, w).mapping && JoinStep(j, w).mapping[w.node.name] == Num(j, w.node.name)
    ensures w.R? ==> w.rel.to.name in JoinStep(j, w).mapping && JoinStep(j, w).mapping[w.rel.to.name] == ToNum(j, w.rel)
    ensures w.R? && !(w.rel.Reflexive() && w.rel.from.name !in j.mapping) ==>
              w.rel.from.name in JoinStep(j, w).mapping && JoinStep(j, w).mapping[w.rel.from.name] == Num(j, w.rel.from.name)
  {
    match w
    case N(n) =>
      if n.name !in j.mapping {
        PutNumbered(j, n.name);
      }
    case R(e) =>
      var j1 := if e.from.name in j.mapping then j else Joins(j.mapping[e.from.name := j.next], j.next + 1);
      if e.from.name !in j.mapping {
        PutNumbered(j, e.from.name);
      }
      if e.to.name !in j.mapping {
        PutNumbered(j1, e.to.name);
      }
  }

  /** Giving `l` the next number keeps the numbering well formed and every
      other label's number. */
  lemma PutNumbered(j: Joins, l: string)
    requires Numbered(j)
    ensures var j' := Joins(j.mapping[l := j.next], j.next + 1);
            && Numbered(j') && j'.next == j.next + 1 && l in j'.mapping
            && forall k | k in j.mapping && k != l :: k in j'.mapping && j'.mapping[k] == j.mapping[k]
  {
  }

  /** The numbering is well formed at every point of the visit. */
  lemma {:induction false} JoinsBeforeNumbered(ws: seq<Waypoint>, i: nat)
    requires i <= |ws|
    ensures Numbered(JoinsBefore(ws, i))
  {
    if i > 0 {
      JoinsBeforeNumbered(ws, i - 1);
      StepNumbered(JoinsBefore(ws, i - 1), ws[i - 1]);
    }
  }

  /** Once a label has a number it keeps it for the rest of the visit. */
  lemma {:induction false} JoinsKeep(ws: seq<Waypoint>, i: nat, k: nat)
    requires i <= k <= |ws|
    ensures Keeps(JoinsBefore(ws, i), JoinsBefore(ws, k))
    decreases k
  {
    if k > i {
      JoinsKeep(ws, i, k - 1);
      JoinsBeforeNumbered(ws, k - 1);
      StepNumbered(JoinsBefore(ws, k - 1), ws[k - 1]);
    }
  }

  /** The join: after a node labelled `l` is visited, every later element
      that mentions `l` (a node, or either end of a relationship) uses the
      node's variable. */
  lemma NodeJoinsLater(ws: seq<Waypoint>, j: nat, k: nat)
    requires j < k <= |ws| && ws[j].N?
    ensures ws[j].node.name in JoinsBefore(ws, k).mapping
    ensures JoinsBefore(ws, k).mapping[ws[j].node.name] == Num(JoinsBefore(ws, j), ws[j].node.name)
  {
    JoinsBeforeNumbered(ws, j);
    StepNumbered(JoinsBefore(ws, j), ws[j]);
    JoinsKeep(ws, j + 1, k);
  }

  /** Two nodes with the same label get the same variable. */
  lemma SameLabelJoined(ws: seq<Waypoint>, j: nat, k: nat)
    requires j < k < |ws| && ws[j].N? && ws[k].N? && ws[j].node.name == ws[k].node.name
    ensures Enc(Num(JoinsBefore(ws, j), ws[j].node.name)) == Enc(Num(JoinsBefore(ws, k), ws[k].node.name))
  {
    NodeJoinsLater(ws, j, k);
  }

  /** Two nodes with different labels get different variables. */
  lemma DifferentLabelsApart(ws: seq<Waypoint>, j: nat, k: nat)
    requires j < k < |ws| && ws[j].N? && ws[k].N? && ws[j].node.name != ws[k].node.name
    ensures Enc(Num(JoinsBefore(ws, j), ws[j].node.name)) != Enc(Num(JoinsBefore(ws, k), ws[k].node.name))
  {
    var a, b := ws[j].node.name, ws[k].node.name;
    NodeJoinsLater(ws, j, k + 1);
    JoinsBeforeNumbered(ws, k);
    StepNumbered(JoinsBefore(ws, k), ws[k]);
    var after := JoinsBefore(ws, k + 1);
    JoinsBeforeNumbered(ws, k + 1);
    assert after.mapping[a] != after.mapping[b];
    EncInjective(after.mapping[a], after.mapping[b]);
  }

  /** A reflexive relationship on an unseen label uses two variables, and
      the label keeps the second. */
  lemma ReflexiveUnseenSplits(j: Joins, e: Relationship)
    requires Numbered(j) && e.Reflexive() && e.from.name !in j.mapping
    ensures Enc(Num(j, e.from.name)) != Enc(ToNum(j, e))
    ensures JoinStep(j, R(e)).mapping[e.from.name] == ToNum(j, e)
  {
    EncInjective(j.next, j.next + 1);
  }
}
