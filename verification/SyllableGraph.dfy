/** The specification of the syllable graph: steps, walks and their minimax cost. */
module SyllableGraphs {
  import opened Spellings
  import opened PrismImages

  type SpellingMap = map<int, Properties>
  type EndVertexMap = map<nat, SpellingMap>
  type EdgeMap = map<nat, EndVertexMap>
  type VertexMap = map<nat, SpellingType>

  type SpellingIndex = map<int, seq<Properties>>
  type SpellingIndices = map<nat, SpellingIndex>

  class SyllableGraph {
    var inputLength: nat
    var interpretedLength: nat
    var vertices: VertexMap
    var edges: EdgeMap
    var indices: SpellingIndices

    constructor ()
      ensures inputLength == interpretedLength == 0
      ensures vertices == map[] && edges == map[] && indices == map[]
    {
      inputLength, interpretedLength, vertices, edges, indices := 0, 0, map[], map[], map[];
    }
  }

  datatype Vertex = Vertex(pos: nat, kind: SpellingType)

  /** A way to cut a stretch of the input into spellings. */
  datatype Route = Arrived | Via(first: Match, rest: Route)

  /** One call of the syllabifier: the input, the delimiters to skip, and the prism. */
  datatype Query = Query(input: string, delimiters: string, prism: Image) {

    /** The position after the delimiters that start at `pos`. */
    function Skip(pos: nat): (r: nat)
      requires pos <= |input|
      ensures pos <= r <= |input| && forall i :: pos <= i < r ==> input[i] in delimiters
      ensures r == |input| || input[r] !in delimiters
      decreases |input| - pos
    {
      if pos < |input| && input[pos] in delimiters then Skip(pos + 1) else pos
    }

    /** The search is called on the rest of the input; it finds nothing in an empty one. */
    function MatchesAt(pos: nat): seq<Match>
      requires pos <= |input|
    {
      if pos == |input| then [] else prism.Matches(input[pos..])
    }

    function EndOf(pos: nat, m: Match): (r: nat)
      requires pos + m.length <= |input|
      ensures pos + m.length <= r <= |input| && forall i :: pos + m.length <= i < r ==> input[i] in delimiters
      ensures r == |input| || input[r] !in delimiters
    {
      Skip(pos + m.length)
    }

    /** The best type among the syllables of a match. */
    function KindOf(m: Match): SpellingType {
      BestKind(prism.Syllables(m.value))
    }

    ghost predicate Step(pos: nat, m: Match) {
      pos < |input| && m in MatchesAt(pos) && m.length > 0
    }

    ghost predicate Walk(from: nat, r: Route, to: nat)
      decreases r
    {
      match r
      case Arrived => from == to
      case Via(m, rest) => Step(from, m) && Walk(EndOf(from, m), rest, to)
    }

    /** The worst step of a route. */
    ghost function Cost(r: Route): SpellingType {
      match r
      case Arrived => NORMAL
      case Via(m, rest) => Worse(KindOf(m), Cost(rest))
    }

    ghost predicate Reachable(p: nat) {
      exists r :: Walk(0, r, p)
    }

    ghost predicate Attained(p: nat, t: SpellingType) {
      exists r :: Walk(0, r, p) && Cost(r) == t
    }

    /** `t` is the minimum over all routes to `p` of the worst step of the route. */
    ghost predicate Minimax(p: nat, t: SpellingType) {
      Attained(p, t) && forall r :: Walk(0, r, p) ==> t <= Cost(r)
    }

    /** The edges out of `pos` that the first `n` matches produce. */
    function EndsUpTo(pos: nat, n: nat): EndVertexMap
      requires pos <= |input| && n <= |MatchesAt(pos)|
    {
      if n == 0 then map[] else AddMatch(EndsUpTo(pos, n - 1), pos, MatchesAt(pos)[n - 1])
    }

    function AddMatch(ends: EndVertexMap, pos: nat, m: Match): EndVertexMap
      requires pos + m.length <= |input|
    {
      if m.length == 0 then ends else
        var end := EndOf(pos, m);
        ends[end := InsertAll(SpellingsOf(ends, end), prism.Syllables(m.value), end)]
    }

    function Ends(pos: nat): EndVertexMap
      requires pos <= |input|
    {
      EndsUpTo(pos, |MatchesAt(pos)|)
    }
  }

  function BestKind(ds: seq<Descriptor>): SpellingType {
    if ds == [] then INVALID else Better(BestKind(ds[..|ds| - 1]), ds[|ds| - 1].kind)
  }

  function SpellingsOf(ends: EndVertexMap, end: nat): SpellingMap {
    if end in ends then ends[end] else map[]
  }

  function PropertiesOf(d: Descriptor, end: nat): Properties {
    Properties(d.kind, end, d.credibility)
  }

  /** Inserting into an ordered map keeps the value of a key that is already there. */
  function Insert(sp: SpellingMap, d: Descriptor, end: nat): SpellingMap {
    if d.syllable in sp then sp else sp[d.syllable := PropertiesOf(d, end)]
  }

  function InsertAll(sp: SpellingMap, ds: seq<Descriptor>, end: nat): SpellingMap {
    if ds == [] then sp else Insert(InsertAll(sp, ds[..|ds| - 1], end), ds[|ds| - 1], end)
  }

  /** A step is a key that the input has at its position, with the rank of the key. */
  lemma StepExactly(q: Query, p: nat, m: Match)
    ensures q.Step(p, m)
       <==> (0 < m.length && p + m.length <= |q.input| && q.input[p..p + m.length] in q.prism.keys
             && m.value == q.prism.Rank(q.input[p..p + m.length]))
  {
    if p < |q.input| {
      var rest := q.input[p..];
      MatchesUpToExact(q.prism, rest, |rest|, m);
      assert m.length <= |rest| ==> rest[..m.length] == q.input[p..p + m.length];
    }
  }

  // ---------- walks ----------

  ghost predicate Takes(r: Route, m: Match)
    decreases r
  {
    r.Via? && (r.first == m || Takes(r.rest, m))
  }

  /** The cost of a route is the worst type of the steps that it takes, and normal if it takes none. */
  lemma {:induction false} CostExactly(q: Query, r: Route)
    ensures forall m :: Takes(r, m) ==> q.KindOf(m) <= q.Cost(r)
    ensures q.Cost(r) == NORMAL || exists m :: Takes(r, m) && q.KindOf(m) == q.Cost(r)
    decreases r
  {
    if r.Via? {
      CostExactly(q, r.rest);
      assert Takes(r, r.first);
    }
  }

  lemma {:induction false} WalkForward(q: Query, from: nat, r: Route, to: nat)
    requires q.Walk(from, r, to)
    ensures from <= to && (r.Via? ==> from < to <= |q.input|)
    decreases r
  {
    if r.Via? {
      WalkForward(q, q.EndOf(from, r.first), r.rest, to);
    }
  }

  ghost function Join(r: Route, s: Route): Route {
    match r
    case Arrived => s
    case Via(m, rest) => Via(m, Join(rest, s))
  }

  lemma {:induction false} WalkJoin(q: Query, from: nat, r: Route, mid: nat, s: Route, to: nat)
    requires q.Walk(from, r, mid) && q.Walk(mid, s, to)
    ensures q.Walk(from, Join(r, s), to)
    ensures q.Cost(Join(r, s)) == Worse(q.Cost(r), q.Cost(s))
    decreases r
  {
    if r.Via? {
      WalkJoin(q, q.EndOf(from, r.first), r.rest, mid, s, to);
    }
  }

  lemma WalkExtend(q: Query, p: nat, t: SpellingType, m: Match)
    requires q.Attained(p, t) && q.Step(p, m)
    ensures q.Attained(q.EndOf(p, m), Worse(t, q.KindOf(m)))
  {
    var r :| q.Walk(0, r, p) && q.Cost(r) == t;
    var last := Via(m, Arrived);
    assert q.Walk(q.EndOf(p, m), Arrived, q.EndOf(p, m));
    assert q.Walk(p, last, q.EndOf(p, m)) && q.Cost(last) == q.KindOf(m);
    WalkJoin(q, 0, r, p, last, q.EndOf(p, m));
  }

  // ---------- the exploration invariant ----------

  /** The end of a step is settled at least as well, or waits in the queue. */
  ghost predicate Covered(vertices: VertexMap, queue: multiset<Vertex>, x: nat, t: SpellingType) {
    (x in vertices && vertices[x] <= t) || Vertex(x, t) in queue
  }

  ghost predicate Frontier(q: Query, vertices: VertexMap, queue: multiset<Vertex>) {
    forall p, m :: p in vertices && q.Step(p, m)
      ==> Covered(vertices, queue, q.EndOf(p, m), Worse(vertices[p], q.KindOf(m)))
  }

  ghost predicate Settled(q: Query, vertices: VertexMap) {
    forall p :: p in vertices ==> q.Minimax(p, vertices[p])
  }

  ghost predicate Sound(q: Query, queue: multiset<Vertex>) {
    forall v :: v in queue ==> q.Attained(v.pos, v.kind)
  }

  ghost predicate Ahead(vertices: VertexMap, queue: multiset<Vertex>) {
    forall p, v :: p in vertices && v in queue ==> p <= v.pos
  }

  ghost predicate Exploring(q: Query, vertices: VertexMap, queue: multiset<Vertex>) {
    && Settled(q, vertices) && Sound(q, queue) && Frontier(q, vertices, queue) && Ahead(vertices, queue)
    && Covered(vertices, queue, 0, NORMAL)
  }

  predicate Before(u: Vertex, v: Vertex) {
    u.pos < v.pos || (u.pos == v.pos && u.kind <= v.kind)
  }

  ghost predicate Met(vertices: VertexMap, queue: multiset<Vertex>, to: nat, t: SpellingType) {
    (to in vertices && vertices[to] <= t) || exists v :: v in queue && Before(v, Vertex(to, t))
  }

  /** Every walk ends in a settled vertex no worse than the walk, or meets the queue on its way. */
  lemma {:induction false} WalkMeetsQueue(q: Query, vertices: VertexMap, queue: multiset<Vertex>,
                                          from: nat, t: SpellingType, r: Route, to: nat)
    requires Frontier(q, vertices, queue)
    requires q.Walk(from, r, to) && from in vertices && vertices[from] <= t
    ensures Met(vertices, queue, to, Worse(t, q.Cost(r)))
    decreases r
  {
    if r.Via? {
      var next := q.EndOf(from, r.first);
      var t' := Worse(vertices[from], q.KindOf(r.first));
      assert Covered(vertices, queue, next, t');
      WalkForward(q, next, r.rest, to);
      if next in vertices && vertices[next] <= t' {
        WalkMeetsQueue(q, vertices, queue, next, t', r.rest, to);
        assert Worse(t', q.Cost(r.rest)) <= Worse(t, q.Cost(r));
      } else {
        assert Before(Vertex(next, t'), Vertex(to, Worse(t, q.Cost(r))));
      }
    }
  }

  lemma WalkFromStart(q: Query, vertices: VertexMap, queue: multiset<Vertex>, r: Route, to: nat)
    requires Exploring(q, vertices, queue) && q.Walk(0, r, to)
    ensures Met(vertices, queue, to, q.Cost(r))
  {
    WalkForward(q, 0, r, to);
    if 0 in vertices && vertices[0] <= NORMAL {
      WalkMeetsQueue(q, vertices, queue, 0, NORMAL, r, to);
    } else {
      assert Before(Vertex(0, NORMAL), Vertex(to, q.Cost(r)));
    }
  }

  /** The first vertex of the queue has its final type when it is met for the first time. */
  lemma FirstIsMinimax(q: Query, vertices: VertexMap, queue: multiset<Vertex>, v: Vertex)
    requires Exploring(q, vertices, queue)
    requires v in queue && (forall u :: u in queue ==> Before(v, u)) && v.pos !in vertices
    ensures q.Minimax(v.pos, v.kind)
  {
    forall r | q.Walk(0, r, v.pos)
      ensures v.kind <= q.Cost(r)
    {
      WalkFromStart(q, vertices, queue, r, v.pos);
    }
  }

  /** When the queue is empty every walk has been followed. */
  lemma ExploredAll(q: Query, vertices: VertexMap)
    requires Exploring(q, vertices, multiset{})
    ensures (forall p :: p in vertices <==> q.Reachable(p)) && Settled(q, vertices)
  {
    forall p
      ensures p in vertices <==> q.Reachable(p)
    {
      if q.Reachable(p) {
        var r :| q.Walk(0, r, p);
        WalkFromStart(q, vertices, multiset{}, r, p);
      }
      if p in vertices {
        assert q.Minimax(p, vertices[p]);
      }
    }
  }

  /** A later, worse copy of a settled vertex can be discarded. */
  lemma DiscardKeepsExploring(q: Query, vertices: VertexMap, queue: multiset<Vertex>, v: Vertex)
    requires Exploring(q, vertices, queue) && v in queue && v.pos in vertices
    ensures Exploring(q, vertices, queue - multiset{v})
  {
    assert q.Attained(v.pos, v.kind);
    var r :| q.Walk(0, r, v.pos) && q.Cost(r) == v.kind;
    assert q.Minimax(v.pos, vertices[v.pos]);
    var rest := queue - multiset{v};
    forall x, t | Covered(vertices, queue, x, t)
      ensures Covered(vertices, rest, x, t)
    {
      if Vertex(x, t) != v && Vertex(x, t) in queue { assert Vertex(x, t) in rest; }
    }
  }

  /** `u` is the end of step `m` from `v`, with the type of the way through `v`. */
  ghost predicate Leads(q: Query, v: Vertex, m: Match, u: Vertex) {
    q.Step(v.pos, m) && u == Vertex(q.EndOf(v.pos, m), Worse(v.kind, q.KindOf(m)))
  }

  /** `pushed` holds exactly the vertices that the steps from `v` lead to. */
  ghost predicate Pushed(q: Query, v: Vertex, pushed: multiset<Vertex>) {
    && (forall m, u :: Leads(q, v, m, u) ==> u in pushed)
    && (forall u :: u in pushed ==> exists m :: Leads(q, v, m, u))
  }

  /** The same after the first `n` matches. */
  ghost predicate PushedUpTo(q: Query, v: Vertex, pushed: multiset<Vertex>, n: nat)
    requires v.pos <= |q.input| && n <= |q.MatchesAt(v.pos)|
  {
    && (forall k, u :: 0 <= k < n && Leads(q, v, q.MatchesAt(v.pos)[k], u) ==> u in pushed)
    && (forall u :: u in pushed ==> exists m :: Leads(q, v, m, u))
  }

  lemma PushOne(q: Query, v: Vertex, pushed: multiset<Vertex>, n: nat, u: Vertex)
    requires v.pos < |q.input| && n < |q.MatchesAt(v.pos)| && PushedUpTo(q, v, pushed, n)
    requires Leads(q, v, q.MatchesAt(v.pos)[n], u)
    ensures PushedUpTo(q, v, pushed + multiset{u}, n + 1)
  {
    forall k, w | 0 <= k < n + 1 && Leads(q, v, q.MatchesAt(v.pos)[k], w)
      ensures w in pushed + multiset{u}
    {
      LeadsOnce(q, v, q.MatchesAt(v.pos)[k], w, u);
    }
    hide Leads;
    assert forall w :: w in pushed + multiset{u} <==> w in pushed || w == u;
  }

  lemma LeadsOnce(q: Query, v: Vertex, m: Match, u: Vertex, w: Vertex)
    requires Leads(q, v, m, u)
    ensures Leads(q, v, m, w) ==> w == u
  {
  }

  lemma PushedNone(q: Query, v: Vertex)
    requires v.pos <= |q.input|
    ensures PushedUpTo(q, v, multiset{}, 0)
  {
  }

  lemma PushNone(q: Query, v: Vertex, pushed: multiset<Vertex>, n: nat)
    requires v.pos < |q.input| && n < |q.MatchesAt(v.pos)| && PushedUpTo(q, v, pushed, n)
    requires q.MatchesAt(v.pos)[n].length == 0
    ensures PushedUpTo(q, v, pushed, n + 1)
  {
  }

  lemma PushedAll(q: Query, v: Vertex, pushed: multiset<Vertex>)
    requires v.pos < |q.input| && PushedUpTo(q, v, pushed, |q.MatchesAt(v.pos)|)
    ensures Pushed(q, v, pushed)
  {
    forall m, u | Leads(q, v, m, u)
      ensures u in pushed
    {
      var k :| 0 <= k < |q.MatchesAt(v.pos)| && q.MatchesAt(v.pos)[k] == m;
      assert Leads(q, v, q.MatchesAt(v.pos)[k], u);
    }
  }

  lemma PushedAreSound(q: Query, v: Vertex, pushed: multiset<Vertex>, u: Vertex)
    requires Pushed(q, v, pushed) && q.Attained(v.pos, v.kind) && u in pushed
    ensures q.Attained(u.pos, u.kind) && v.pos < u.pos <= |q.input|
  {
    var m :| Leads(q, v, m, u);
    WalkExtend(q, v.pos, v.kind, m);
  }

  lemma VisitKeepsFrontier(q: Query, vertices: VertexMap, queue: multiset<Vertex>, v: Vertex, pushed: multiset<Vertex>)
    requires Frontier(q, vertices, queue) && v in queue && v.pos !in vertices && Pushed(q, v, pushed)
    ensures Frontier(q, vertices[v.pos := v.kind], queue - multiset{v} + pushed)
  {
    var vertices', queue' := vertices[v.pos := v.kind], queue - multiset{v} + pushed;
    forall p, m | p in vertices' && q.Step(p, m)
      ensures Covered(vertices', queue', q.EndOf(p, m), Worse(vertices'[p], q.KindOf(m)))
    {
      var u := Vertex(q.EndOf(p, m), Worse(vertices'[p], q.KindOf(m)));
      if p == v.pos {
        assert Leads(q, v, m, u);
      } else {
        assert Covered(vertices, queue, u.pos, u.kind);
        if u != v && u in queue { assert u in queue'; }
      }
    }
  }

  lemma VisitKeepsQueue(q: Query, vertices: VertexMap, queue: multiset<Vertex>, v: Vertex, pushed: multiset<Vertex>)
    requires Sound(q, queue) && Ahead(vertices, queue)
    requires v in queue && (forall u :: u in queue ==> Before(v, u)) && Pushed(q, v, pushed)
    ensures Sound(q, queue - multiset{v} + pushed)
    ensures Ahead(vertices[v.pos := v.kind], queue - multiset{v} + pushed)
  {
    var queue' := queue - multiset{v} + pushed;
    forall u | u in queue'
      ensures q.Attained(u.pos, u.kind) && v.pos <= u.pos
    {
      if u in pushed { PushedAreSound(q, v, pushed, u); } else { assert u in queue; }
    }
  }

  /** Settling the first vertex and pushing the ends of its steps keeps the invariant. */
  lemma VisitKeepsExploring(q: Query, vertices: VertexMap, queue: multiset<Vertex>, v: Vertex, pushed: multiset<Vertex>)
    requires Exploring(q, vertices, queue)
    requires v in queue && (forall u :: u in queue ==> Before(v, u)) && v.pos !in vertices
    requires Pushed(q, v, pushed)
    ensures Exploring(q, vertices[v.pos := v.kind], queue - multiset{v} + pushed)
  {
    var vertices', queue' := vertices[v.pos := v.kind], queue - multiset{v} + pushed;
    assert Settled(q, vertices') by { FirstIsMinimax(q, vertices, queue, v); }
    VisitKeepsFrontier(q, vertices, queue, v, pushed);
    VisitKeepsQueue(q, vertices, queue, v, pushed);
    assert Covered(vertices, queue, 0, NORMAL) && Covered(vertices', queue', 0, NORMAL);
  }

  lemma FirstExists(queue: multiset<Vertex>)
    requires queue != multiset{}
    ensures exists v :: v in queue && forall u :: u in queue ==> Before(v, u)
  {
    var v :| v in queue;
    while exists u :: u in queue && !Before(v, u)
      invariant v in queue
      decreases v.pos, v.kind
    {
      var u :| u in queue && !Before(v, u);
      v := u;
    }
  }

  // ---------- what the exploration finds ----------

  ghost function Positions(n: nat): (ps: set<nat>)
    ensures forall p: nat :: p in ps <==> p <= n
  {
    if n == 0 then {0} else Positions(n - 1) + {n}
  }

  /** The graph before pruning. */
  datatype Found = Found(vertices: VertexMap, edges: EdgeMap, farthest: nat)

  ghost predicate EdgesOf(q: Query, vertices: VertexMap, edges: EdgeMap) {
    && (forall p :: p in edges <==> p in vertices && p < |q.input| && q.MatchesAt(p) != [])
    && (forall p :: p in edges ==> edges[p] == q.Ends(p))
  }

  lemma EdgesOfVisit(q: Query, vertices: VertexMap, edges: EdgeMap, v: Vertex)
    requires EdgesOf(q, vertices, edges) && v.pos !in vertices
    ensures v.pos < |q.input| && q.MatchesAt(v.pos) != []
      ==> EdgesOf(q, vertices[v.pos := v.kind], edges[v.pos := q.Ends(v.pos)])
    ensures v.pos >= |q.input| || q.MatchesAt(v.pos) == [] ==> EdgesOf(q, vertices[v.pos := v.kind], edges)
  {
  }

  lemma ExplorationStarts(q: Query)
    ensures Exploring(q, map[], multiset{Vertex(0, NORMAL)}) && EdgesOf(q, map[], map[])
  {
    assert q.Walk(0, Arrived, 0) && q.Cost(Arrived) == NORMAL;
  }

  lemma NothingPushed(q: Query, v: Vertex)
    requires v.pos >= |q.input| || q.MatchesAt(v.pos) == []
    ensures Pushed(q, v, multiset{})
  {
  }

  /** Exactly the reachable positions, each with its minimax type, and all the edges out of them. */
  ghost predicate Explored(q: Query, x: Found) {
    && (forall p :: p in x.vertices <==> q.Reachable(p))
    && Settled(q, x.vertices)
    && EdgesOf(q, x.vertices, x.edges)
    && x.farthest in x.vertices && (forall p :: p in x.vertices ==> p <= x.farthest)
  }
}
