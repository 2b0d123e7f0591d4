/** The second half of the syllabifier: a backward pass keeps what leads to the farthest position. */
module Prunings {
  import opened Spellings
  import opened PrismImages
  import opened SyllableGraphs

  // ---------- what pruning keeps ----------

  /** Edges go forward between vertices, and none goes beyond the farthest. */
  ghost predicate Forward(x: Found) {
    && x.farthest in x.vertices && (forall p :: p in x.vertices ==> p <= x.farthest)
    && (forall p :: p in x.edges ==> p in x.vertices)
    && (forall p, j :: p in x.edges && j in x.edges[p] ==> p < j <= x.farthest)
    && (forall p, j {:trigger j in x.edges[p]} :: p in x.edges && j in x.edges[p] ==> j in x.vertices)
  }

  ghost function Last(x: Found): SpellingType {
    if x.farthest in x.vertices then x.vertices[x.farthest] else INVALID
  }

  /** The spellings that are no worse than the type of the farthest vertex. */
  function Allowed(sp: SpellingMap, last: SpellingType): SpellingMap {
    map s | s in sp && sp[s].kind <= last :: sp[s]
  }

  function EndsOf(edges: EdgeMap, p: nat): EndVertexMap {
    if p in edges then edges[p] else map[]
  }

  /** The edge exists and has an allowed spelling. */
  ghost predicate Link(x: Found, p: nat, j: nat) {
    j in EndsOf(x.edges, p) && Allowed(x.edges[p][j], Last(x)) != map[]
  }

  /** Allowed links lead from `p` to the farthest position, over vertices that are no worse than it. */
  ghost predicate Good(x: Found, p: nat)
    decreases if p <= x.farthest then x.farthest - p else 0
  {
    p == x.farthest
    || (p < x.farthest && p in x.vertices && x.vertices[p] <= Last(x)
        && exists j :: p < j <= x.farthest && Link(x, p, j) && Good(x, j))
  }

  ghost predicate Keeps(x: Found, p: nat, j: nat) {
    Link(x, p, j) && Good(x, j)
  }

  ghost function PrunedEnds(x: Found, p: nat): EndVertexMap {
    map j | j in EndsOf(x.edges, p) && Keeps(x, p, j) :: Allowed(x.edges[p][j], Last(x))
  }

  ghost predicate Normal(sp: SpellingMap) {
    exists s :: s in sp && sp[s].kind == NORMAL
  }

  /** A normal spelling between `s` and `e` is also two kept edges that meet at `p`. */
  ghost predicate Overlap(x: Found, s: nat, p: nat, e: nat) {
    p < e && Keeps(x, s, p) && Keeps(x, s, e) && Normal(x.edges[s][e]) && Keeps(x, p, e)
  }

  // ---------- the state of the backward pass ----------

  /** The edges once every position from `n` on has been handled. */
  ghost function EdgesFrom(x: Found, n: nat): EdgeMap {
    map p | p in x.edges && (p < n || Good(x, p)) :: if p < n then x.edges[p] else PrunedEnds(x, p)
  }

  ghost predicate MarkedFrom(x: Found, p: nat, n: nat) {
    exists s, e :: s >= n && Overlap(x, s, p, e)
  }

  ghost function VerticesFrom(x: Found, n: nat): VertexMap {
    map p | p in x.vertices && (p < n || Good(x, p)) :: if MarkedFrom(x, p, n) then AMBIGUOUS else x.vertices[p]
  }

  ghost function GoodFrom(x: Found, n: nat): set<nat> {
    set p | p in x.vertices && p >= n && Good(x, p)
  }

  /** The edges out of `p` once its ends before `j` have been handled. */
  ghost function EndsAt(x: Found, p: nat, j: nat): EndVertexMap {
    map k | k in EndsOf(x.edges, p) && (k >= j || Keeps(x, p, k)) ::
      if k < j then Allowed(x.edges[p][k], Last(x)) else x.edges[p][k]
  }

  /** The same in the middle of position `i`. */
  ghost function EdgesAt(x: Found, i: nat, j: nat): EdgeMap {
    EdgesFrom(x, i + 1)[i := EndsAt(x, i, j)]
  }

  ghost predicate MarkedAt(x: Found, p: nat, i: nat, j: nat) {
    MarkedFrom(x, p, i + 1) || exists e: nat :: e < j && Overlap(x, i, p, e)
  }

  ghost function VerticesAt(x: Found, i: nat, j: nat): VertexMap {
    map p | p in x.vertices && (p <= i || Good(x, p)) :: if MarkedAt(x, p, i, j) then AMBIGUOUS else x.vertices[p]
  }

  // ---------- the pass ----------

  /** `p` is a joint of two edges that together span the edge from `start` to `end`. */
  predicate Joint(edges: EdgeMap, start: nat, p: nat, end: nat) {
    p < end && p in EndsOf(edges, start) && end in EndsOf(edges, p)
  }

  function MarkJoints(vertices: VertexMap, edges: EdgeMap, start: nat, end: nat): VertexMap {
    map p | p in vertices :: if Joint(edges, start, p, end) then AMBIGUOUS else vertices[p]
  }

  /** The joints before `n` have been marked. */
  function MarkJointsTo(vertices: VertexMap, edges: EdgeMap, start: nat, end: nat, n: nat): VertexMap {
    map p | p in vertices :: if p < n && Joint(edges, start, p, end) then AMBIGUOUS else vertices[p]
  }

  lemma MarkOne(vertices: VertexMap, edges: EdgeMap, start: nat, end: nat, n: nat)
    requires Joint(edges, start, n, end) ==> n in vertices
    ensures MarkJointsTo(vertices, edges, start, end, n + 1)
         == if Joint(edges, start, n, end) then MarkJointsTo(vertices, edges, start, end, n)[n := AMBIGUOUS]
            else MarkJointsTo(vertices, edges, start, end, n)
  {
    hide Joint;
  }

  lemma MarkAll(vertices: VertexMap, edges: EdgeMap, start: nat, end: nat)
    ensures MarkJointsTo(vertices, edges, start, end, 0) == vertices
    ensures MarkJointsTo(vertices, edges, start, end, end) == MarkJoints(vertices, edges, start, end)
    ensures start !in edges ==> MarkJoints(vertices, edges, start, end) == vertices
  {
  }

  /** Marks the vertices between the two halves of a longer spelling as ambiguous joints. */
  method CheckOverlappedSpellings(g: SyllableGraph, start: nat, end: nat)
    requires forall p :: Joint(g.edges, start, p, end) ==> p in g.vertices
    modifies g`vertices
    ensures g.vertices == MarkJoints(old(g.vertices), g.edges, start, end)
  {
    MarkAll(g.vertices, g.edges, start, end);
    hide MarkJoints, MarkJointsTo;
    if start !in g.edges { return; }
    for joint := 0 to end
      invariant g.vertices == MarkJointsTo(old(g.vertices), g.edges, start, end, joint)
    {
      MarkOne(old(g.vertices), g.edges, start, end, joint);
      if joint !in g.edges[start] || joint !in g.edges { continue; }
      // the first end that is not before `end` is `end` itself
      if end in g.edges[joint] {
        g.vertices := g.vertices[joint := AMBIGUOUS];
      }
    }
  }

  /** Removes the spellings that are worse than `last`, and finds the best of the others. */
  method PruneSpellings(sp: SpellingMap, last: SpellingType) returns (left: SpellingMap, best: SpellingType)
    ensures left == Allowed(sp, last)
    ensures best == NORMAL <==> Normal(sp)
  {
    left, best := sp, INVALID;
    var todo: set<int> := sp.Keys;
    while todo != {}
      invariant todo <= sp.Keys
      invariant left == Allowed(sp, last) + map s | s in todo :: sp[s]
      invariant best == NORMAL <==> exists s :: s in sp && s !in todo && sp[s].kind == NORMAL
      decreases todo
    {
      var s := Pick(todo);
      todo := todo - {s};
      if sp[s].kind > last {
        left := left - {s};
      } else if sp[s].kind < best {
        best := sp[s].kind;
      }
    }
  }

  // ---------- one position of the pass ----------

  ghost predicate MidPass(x: Found, g: SyllableGraph, i: nat, j: nat)
    reads g
  {
    i < x.farthest && i in x.vertices && g.vertices == VerticesAt(x, i, j) && g.edges == EdgesAt(x, i, j)
  }

  lemma MarksUnchanged(x: Found, i: nat, j: nat)
    requires Forward(x) && forall p :: !Overlap(x, i, p, j)
    ensures VerticesAt(x, i, j) == VerticesAt(x, i, j + 1)
  {
    hide Overlap, Good, MarkedFrom;
    forall p | p in x.vertices
      ensures MarkedAt(x, p, i, j) == MarkedAt(x, p, i, j + 1)
    {
    }
  }

  lemma NoEndAt(x: Found, i: nat, j: nat)
    requires Forward(x) && j !in EndsOf(x.edges, i)
    ensures VerticesAt(x, i, j) == VerticesAt(x, i, j + 1) && EdgesAt(x, i, j) == EdgesAt(x, i, j + 1)
  {
    assert EndsAt(x, i, j) == EndsAt(x, i, j + 1) by { hide Keeps, Allowed, Forward; }
    assert forall p: nat :: !Overlap(x, i, p, j) by { hide Good; }
    MarksUnchanged(x, i, j);
    hide Good, VerticesAt, EdgesFrom, EndsAt, Overlap;
  }

  lemma DroppedEndAt(x: Found, i: nat, j: nat)
    requires Forward(x) && j in EndsOf(x.edges, i) && !Keeps(x, i, j)
    ensures EndsAt(x, i, j + 1) == EndsAt(x, i, j) - {j}
  {
    hide Keeps, Allowed, Forward;
  }

  lemma KeptEndAt(x: Found, i: nat, j: nat)
    requires Forward(x) && j in EndsOf(x.edges, i) && Keeps(x, i, j)
    ensures EndsAt(x, i, j + 1) == EndsAt(x, i, j)[j := Allowed(x.edges[i][j], Last(x))]
  {
    hide Keeps, Allowed, Forward;
  }

  lemma JointIsOverlap(x: Found, i: nat, j: nat, p: nat)
    requires Forward(x) && Keeps(x, i, j) && Normal(x.edges[i][j])
    ensures Joint(EdgesAt(x, i, j + 1), i, p, j) <==> Overlap(x, i, p, j)
  {
    var edges := EdgesAt(x, i, j + 1);
    assert EndsOf(edges, i) == EndsAt(x, i, j + 1);
    hide Good;
    assert p < j && Keeps(x, i, p) ==> i < p && EndsOf(edges, p) == if p in x.edges then PrunedEnds(x, p) else map[];
  }

  lemma MarkedAtSplits(x: Found, i: nat, j: nat, p: nat)
    requires Forward(x)
    ensures MarkedAt(x, p, i, j + 1) <==> MarkedAt(x, p, i, j) || Overlap(x, i, p, j)
  {
    hide Overlap, MarkedFrom;
  }

  lemma MarkedAtNext(x: Found, i: nat, j: nat)
    requires Forward(x) && Keeps(x, i, j) && Normal(x.edges[i][j])
    ensures MarkJoints(VerticesAt(x, i, j), EdgesAt(x, i, j + 1), i, j) == VerticesAt(x, i, j + 1)
    ensures forall p :: Joint(EdgesAt(x, i, j + 1), i, p, j) ==> p in VerticesAt(x, i, j)
  {
    forall p
      ensures Joint(EdgesAt(x, i, j + 1), i, p, j) <==> Overlap(x, i, p, j)
      ensures Overlap(x, i, p, j) ==> p in x.vertices && Good(x, p)
      ensures MarkedAt(x, p, i, j + 1) <==> MarkedAt(x, p, i, j) || Overlap(x, i, p, j)
    {
      JointIsOverlap(x, i, j, p);
      MarkedAtSplits(x, i, j, p);
    }
    hide EdgesAt, Joint, Good, Overlap, MarkedAt, Forward, Keeps;
  }

  /** Handles one edge out of `i`. */
  method PruneEnd(ghost x: Found, g: SyllableGraph, i: nat, j: nat, good: set<nat>, last: SpellingType)
    requires Forward(x) && MidPass(x, g, i, j) && j in EndsOf(x.edges, i)
    requires good == GoodFrom(x, i + 1) && last == Last(x)
    modifies g`vertices, g`edges
    ensures MidPass(x, g, i, j + 1)
  {
    hide VerticesAt, EndsAt, Good, MarkJoints, EdgesFrom;
    EndUntouched(x, i, j);
    var ends: EndVertexMap := g.edges[i];
    if j !in good {
      DroppedEndAt(x, i, j);
      MarksUnchanged(x, i, j);
      ends := ends - {j};
      g.edges := g.edges[i := ends];
    } else {
      var left, best := PruneSpellings(ends[j], last);
      if left == map[] {
        DroppedEndAt(x, i, j);
        MarksUnchanged(x, i, j);
        ends := ends - {j};
        g.edges := g.edges[i := ends];
      } else {
        KeptEndAt(x, i, j);
        ends := ends[j := left];
        g.edges := g.edges[i := ends];
        assert g.edges == EdgesAt(x, i, j + 1);
        if best == NORMAL {
          MarkedAtNext(x, i, j);
          CheckOverlappedSpellings(g, i, j);
        } else {
          MarksUnchanged(x, i, j);
        }
      }
    }
  }

  lemma EndUntouched(x: Found, i: nat, j: nat)
    requires Forward(x) && j in EndsOf(x.edges, i)
    ensures j in EndsAt(x, i, j) && EndsAt(x, i, j)[j] == x.edges[i][j]
    ensures j in GoodFrom(x, i + 1) <==> Good(x, j)
  {
  }

  lemma PassStarts(x: Found)
    requires Forward(x)
    ensures VerticesFrom(x, x.farthest) == x.vertices && EdgesFrom(x, x.farthest) == x.edges
    ensures GoodFrom(x, x.farthest) == {x.farthest}
  {
    if x.farthest in x.edges {
      assert PrunedEnds(x, x.farthest) == x.edges[x.farthest];
    }
    forall p: nat
      ensures !MarkedFrom(x, p, x.farthest)
    {
    }
    assert forall p: nat :: Good(x, p) ==> p <= x.farthest;
    hide Good, MarkedFrom, PrunedEnds;
  }

  lemma VertexStarts(x: Found, i: nat)
    requires Forward(x) && i < x.farthest && i in x.vertices
    ensures VerticesFrom(x, i + 1) == VerticesAt(x, i, 0)
    ensures EndsAt(x, i, 0) == EndsOf(x.edges, i)
    ensures i in EdgesFrom(x, i + 1) <==> i in x.edges
    ensures i in x.edges ==> EdgesFrom(x, i + 1)[i] == x.edges[i]
  {
    hide Good, MarkedFrom;
  }

  lemma NoVertex(x: Found, i: nat)
    requires Forward(x) && i < x.farthest && i !in x.vertices
    ensures VerticesFrom(x, i) == VerticesFrom(x, i + 1) && EdgesFrom(x, i) == EdgesFrom(x, i + 1)
    ensures GoodFrom(x, i) == GoodFrom(x, i + 1) && i !in VerticesFrom(x, i)
  {
    forall p: nat
      ensures MarkedFrom(x, p, i) == MarkedFrom(x, p, i + 1)
    {
      hide Good;
    }
    hide Good, MarkedFrom;
  }

  lemma EndsFinished(x: Found, i: nat)
    requires Forward(x)
    ensures EndsAt(x, i, x.farthest + 1) == PrunedEnds(x, i)
  {
    hide Keeps, Allowed;
    assert forall k: nat :: k in EndsOf(x.edges, i) ==> k < x.farthest + 1;
  }

  lemma GoodIff(x: Found, i: nat)
    requires Forward(x) && i < x.farthest && i in x.vertices
    ensures Good(x, i) <==> x.vertices[i] <= Last(x) && PrunedEnds(x, i) != map[]
  {
    var ends := PrunedEnds(x, i);
    if Good(x, i) {
      var j :| i < j <= x.farthest && Link(x, i, j) && Good(x, j);
      assert Keeps(x, i, j) && j in ends;
    }
    if ends != map[] {
      var j :| j in ends;
      assert Keeps(x, i, j) && i < j <= x.farthest;
    }
  }

  lemma MarksFinished(x: Found, i: nat, p: nat)
    requires Forward(x) && i < x.farthest
    ensures MarkedAt(x, p, i, x.farthest + 1) <==> MarkedFrom(x, p, i)
    ensures p <= i ==> !MarkedFrom(x, p, i)
  {
    hide Good, Normal, Allowed;
    if MarkedFrom(x, p, i) {
      var s: nat, e: nat :| s >= i && Overlap(x, s, p, e);
      assert e < x.farthest + 1 && s < p;
    }
  }

  lemma VerticesFinished(x: Found, i: nat)
    requires Forward(x) && i < x.farthest && i in x.vertices
    ensures i in VerticesAt(x, i, x.farthest + 1) && VerticesAt(x, i, x.farthest + 1)[i] == x.vertices[i]
    ensures Good(x, i) ==> VerticesFrom(x, i) == VerticesAt(x, i, x.farthest + 1)
    ensures !Good(x, i) ==> VerticesFrom(x, i) == VerticesAt(x, i, x.farthest + 1) - {i}
  {
    forall p: nat
      ensures MarkedAt(x, p, i, x.farthest + 1) <==> MarkedFrom(x, p, i)
      ensures p <= i ==> !MarkedFrom(x, p, i)
    {
      MarksFinished(x, i, p);
    }
    hide Good, MarkedFrom, MarkedAt, Forward;
  }

  lemma EdgesFinished(x: Found, i: nat)
    requires Forward(x) && i < x.farthest && i in x.vertices
    ensures Good(x, i) ==> EdgesFrom(x, i) == EdgesAt(x, i, x.farthest + 1)
    ensures !Good(x, i) ==> EdgesFrom(x, i) == EdgesAt(x, i, x.farthest + 1) - {i}
  {
    EndsFinished(x, i);
    assert Good(x, i) ==> i in x.edges by { GoodIff(x, i); }
    hide Good, EndsAt, PrunedEnds, Forward;
  }

  /** Prunes the edges out of one vertex, in the order of their ends. */
  method PruneEnds(ghost x: Found, g: SyllableGraph, i: nat, farthest: nat, good: set<nat>, last: SpellingType)
    requires Forward(x) && MidPass(x, g, i, 0) && farthest == x.farthest
    requires good == GoodFrom(x, i + 1) && last == Last(x)
    modifies g`vertices, g`edges
    ensures MidPass(x, g, i, farthest + 1)
  {
    hide VerticesAt, EdgesFrom, EndsAt, Forward;
    for j := 0 to farthest + 1
      invariant MidPass(x, g, i, j)
    {
      EndsSoFar(x, i, j);
      if j in g.edges[i] {
        PruneEnd(x, g, i, j, good, last);
      } else {
        NoEndAt(x, i, j);
      }
    }
  }

  lemma VertexFinished(x: Found, i: nat)
    requires Forward(x) && i < x.farthest && i in x.vertices
    ensures i in VerticesAt(x, i, x.farthest + 1)
    ensures Good(x, i) <==> VerticesAt(x, i, x.farthest + 1)[i] <= Last(x) && EdgesAt(x, i, x.farthest + 1)[i] != map[]
  {
    EndsFinished(x, i);
    GoodIff(x, i);
    VerticesFinished(x, i);
    hide Good, VerticesAt, VerticesFrom, EdgesFrom, PrunedEnds, Forward;
  }

  /** Prunes one vertex and the edges out of it. */
  method PruneVertex(ghost x: Found, g: SyllableGraph, i: nat, farthest: nat, later: set<nat>, last: SpellingType)
    returns (good: set<nat>)
    requires Forward(x) && i < farthest == x.farthest && i in x.vertices && last == Last(x)
    requires g.vertices == VerticesFrom(x, i + 1) && g.edges == EdgesFrom(x, i + 1) && later == GoodFrom(x, i + 1)
    modifies g`vertices, g`edges
    ensures g.vertices == VerticesFrom(x, i) && g.edges == EdgesFrom(x, i) && good == GoodFrom(x, i)
  {
    hide VerticesAt, VerticesFrom, EdgesFrom, EndsAt, Good, PrunedEnds, Forward, GoodFrom;
    VertexStarts(x, i);
    if i !in g.edges {
      g.edges := g.edges[i := map[]];
    }
    assert g.edges == EdgesAt(x, i, 0);
    PruneEnds(x, g, i, farthest, later, last);
    hide EdgesAt;
    VertexFinished(x, i);
    VerticesFinished(x, i);
    EdgesFinished(x, i);
    GoodNext(x, i);
    good := later + {i};
    if g.vertices[i] > last || g.edges[i] == map[] {
      g.vertices := g.vertices - {i};
      g.edges := g.edges - {i};
      good := later;
    }
  }

  lemma EndsSoFar(x: Found, i: nat, j: nat)
    requires Forward(x)
    ensures j in EndsAt(x, i, j) <==> j in EndsOf(x.edges, i)
  {
  }

  lemma GoodNext(x: Found, i: nat)
    requires Forward(x) && i in x.vertices
    ensures GoodFrom(x, i) == if Good(x, i) then GoodFrom(x, i + 1) + {i} else GoodFrom(x, i + 1)
  {
    hide Good;
  }

  /** Removes the stale vertices and edges, from the farthest position back to the start. */
  method Prune(g: SyllableGraph, farthest: nat)
    requires Forward(Found(g.vertices, g.edges, farthest))
    modifies g`vertices, g`edges
    ensures g.vertices == VerticesFrom(Found(old(g.vertices), old(g.edges), farthest), 0)
    ensures g.edges == EdgesFrom(Found(old(g.vertices), old(g.edges), farthest), 0)
  {
    ghost var x := Found(g.vertices, g.edges, farthest);
    PassStarts(x);
    hide VerticesFrom, EdgesFrom, GoodFrom;
    var good := {farthest};
    var last := g.vertices[farthest];
    for i := farthest downto 0
      invariant g.vertices == VerticesFrom(x, i) && g.edges == EdgesFrom(x, i) && good == GoodFrom(x, i)
    {
      VertexLeft(x, i);
      if i !in g.vertices {
        NoVertex(x, i);
        continue;
      }
      good := PruneVertex(x, g, i, farthest, good, last);
    }
  }

  lemma VertexLeft(x: Found, i: nat)
    requires Forward(x)
    ensures i in VerticesFrom(x, i + 1) <==> i in x.vertices
  {
    hide Good;
  }
}
