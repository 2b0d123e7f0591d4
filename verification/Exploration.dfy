/** The first half of the syllabifier: the priority queue explores every way to cut the input. */
module Explorations {
  import opened Spellings
  import opened PrismImages
  import opened SyllableGraphs

  /** Walks over the delimiters after a spelling. */
  method SkipDelimiters(q: Query, start: nat) returns (end: nat)
    requires start <= |q.input|
    ensures end == q.Skip(start)
  {
    end := start;
    while end < |q.input| && q.input[end] in q.delimiters
      invariant start <= end <= |q.input| && q.Skip(end) == q.Skip(start)
    {
      end := end + 1;
    }
  }

  /** Adds the syllables of one spelling to an edge, and finds the best of their types. */
  method AddSyllables(sp: SpellingMap, ds: seq<Descriptor>, end: nat)
    returns (spellings: SpellingMap, best: SpellingType)
    ensures spellings == InsertAll(sp, ds, end) && best == BestKind(ds)
  {
    spellings, best := sp, INVALID;
    for i := 0 to |ds|
      invariant spellings == InsertAll(sp, ds[..i], end) && best == BestKind(ds[..i])
    {
      assert ds[..i + 1][..i] == ds[..i];
      spellings := Insert(spellings, ds[i], end);
      if ds[i].kind < best {
        best := ds[i].kind;
      }
    }
    assert ds[..|ds|] == ds;
  }

  /** The greatest position is `far` or that of one of the vertices, and none is beyond it. */
  ghost predicate Reaches(vertices: multiset<Vertex>, far: nat, farthest: nat) {
    && far <= farthest && (farthest == far || exists u :: u in vertices && u.pos == farthest)
    && (forall u :: u in vertices ==> u.pos <= farthest)
  }

  lemma ReachesPush(vertices: multiset<Vertex>, far: nat, farthest: nat, u: Vertex)
    requires Reaches(vertices, far, farthest)
    ensures Reaches(vertices + multiset{u}, far, if u.pos > farthest then u.pos else farthest)
  {
    if u.pos > farthest {
      assert u in vertices + multiset{u};
    } else if farthest != far {
      var w :| w in vertices && w.pos == farthest;
      assert w in vertices + multiset{u};
    }
  }

  /** Follows one match out of a vertex: extends the edges, and adds the end for the queue. */
  method Follow(q: Query, v: Vertex, i: nat, known: EndVertexMap, waiting: multiset<Vertex>, far: nat)
    returns (ends: EndVertexMap, pushed: multiset<Vertex>, farthest: nat)
    requires v.pos < |q.input| && i < |q.MatchesAt(v.pos)| && PushedUpTo(q, v, waiting, i) && far <= |q.input|
    ensures ends == q.AddMatch(known, v.pos, q.MatchesAt(v.pos)[i])
    ensures PushedUpTo(q, v, pushed, i + 1)
    ensures farthest <= |q.input| && forall far0 :: Reaches(waiting, far0, far) ==> Reaches(pushed, far0, farthest)
  {
    hide PushedUpTo, Reaches;
    var m := q.MatchesAt(v.pos)[i];
    ends, pushed, farthest := known, waiting, far;
    if m.length == 0 {
      PushNone(q, v, pushed, i);
      return;
    }
    var end := SkipDelimiters(q, v.pos + m.length);
    if end > farthest {
      farthest := end;
    }
    var spellings, kind := AddSyllables(SpellingsOf(ends, end), q.prism.Syllables(m.value), end);
    ends := ends[end := spellings];
    if kind < v.kind {
      kind := v.kind;
    }
    PushOne(q, v, pushed, i, Vertex(end, kind));
    pushed := pushed + multiset{Vertex(end, kind)};
    forall far0 | Reaches(waiting, far0, far)
      ensures Reaches(pushed, far0, farthest)
    {
      ReachesPush(waiting, far0, far, Vertex(end, kind));
    }
  }

  /** Follows the matches out of a vertex: builds its edges, and collects their ends for the queue. */
  method Expand(q: Query, v: Vertex, far: nat)
    returns (ends: EndVertexMap, pushed: multiset<Vertex>, farthest: nat)
    requires v.pos < |q.input| && far <= |q.input|
    ensures ends == q.Ends(v.pos)
    ensures Pushed(q, v, pushed) && Reaches(pushed, far, farthest) && farthest <= |q.input|
  {
    ends, pushed, farthest := map[], multiset{}, far;
    PushedNone(q, v);
    ReachesNone(far);
    hide PushedUpTo, Reaches;
    for i := 0 to |q.MatchesAt(v.pos)|
      invariant ends == q.EndsUpTo(v.pos, i)
      invariant PushedUpTo(q, v, pushed, i) && Reaches(pushed, far, farthest) && farthest <= |q.input|
    {
      ends, pushed, farthest := Follow(q, v, i, ends, pushed, farthest);
    }
    PushedAll(q, v, pushed);
  }

  lemma ReachesNone(far: nat)
    ensures Reaches(multiset{}, far, far)
  {
  }

  /** Takes the nearest vertex of the best type out of the queue. */
  method Pop(queue: multiset<Vertex>) returns (v: Vertex)
    requires queue != multiset{}
    ensures v in queue && forall u :: u in queue ==> Before(v, u)
  {
    FirstExists(queue);
    v :| v in queue && forall u :: u in queue ==> Before(v, u);
  }

  /** `farthest` is the greatest position that is settled or waits in the queue. */
  ghost predicate IsFarthest(vertices: VertexMap, queue: multiset<Vertex>, farthest: nat) {
    && (farthest in vertices || exists v :: v in queue && v.pos == farthest)
    && (forall p :: p in vertices ==> p <= farthest)
    && (forall v :: v in queue ==> v.pos <= farthest)
  }

  /** The invariant of the exploration loop. */
  ghost predicate Underway(q: Query, vertices: VertexMap, edges: EdgeMap, queue: multiset<Vertex>, farthest: nat) {
    && Exploring(q, vertices, queue) && EdgesOf(q, vertices, edges)
    && IsFarthest(vertices, queue, farthest) && farthest <= |q.input|
  }

  lemma VisitKeepsFarthest(vertices: VertexMap, waiting: multiset<Vertex>, v: Vertex, pushed: multiset<Vertex>,
                           far: nat, farthest: nat)
    requires IsFarthest(vertices, waiting, far) && v in waiting && Reaches(pushed, far, farthest)
    ensures IsFarthest(vertices[v.pos := v.kind], waiting - multiset{v} + pushed, farthest)
  {
    var queue := waiting - multiset{v} + pushed;
    if farthest == far && far !in vertices && v.pos != far {
      var u :| u in waiting && u.pos == far;
      assert u in queue;
    } else if farthest != far {
      var u :| u in pushed && u.pos == farthest;
      assert u in queue;
    }
  }

  /** Records the first visit to a vertex and sees where a syllable can go from there. */
  method Visit(q: Query, g: SyllableGraph, v: Vertex, waiting: multiset<Vertex>, far: nat)
    returns (queue: multiset<Vertex>, farthest: nat)
    requires Underway(q, g.vertices, g.edges, waiting, far)
    requires v in waiting && (forall u :: u in waiting ==> Before(v, u)) && v.pos !in g.vertices
    modifies g`vertices, g`edges
    ensures g.vertices == old(g.vertices)[v.pos := v.kind]
    ensures Underway(q, g.vertices, g.edges, queue, farthest)
  {
    hide Exploring, EdgesOf, Pushed;
    var pushed := multiset{};
    farthest := far;
    EdgesOfVisit(q, g.vertices, g.edges, v);
    if v.pos < |q.input| && q.MatchesAt(v.pos) != [] {
      var ends;
      ends, pushed, farthest := Expand(q, v, far);
      g.edges := g.edges[v.pos := ends];
    } else {
      NothingPushed(q, v);
    }
    VisitKeepsExploring(q, g.vertices, waiting, v, pushed);
    g.vertices := g.vertices[v.pos := v.kind];
    queue := waiting - multiset{v} + pushed;
    VisitKeepsFarthest(old(g.vertices), waiting, v, pushed, far, farthest);
  }

  /** One turn of the loop: visits a new vertex, or discards a worse spelling type of a known one. */
  method Advance(q: Query, g: SyllableGraph, waiting: multiset<Vertex>, far: nat, ghost unvisited: set<nat>)
    returns (queue: multiset<Vertex>, farthest: nat, ghost left: set<nat>)
    requires Underway(q, g.vertices, g.edges, waiting, far) && waiting != multiset{}
    requires unvisited == Positions(|q.input|) - g.vertices.Keys
    modifies g`vertices, g`edges
    ensures Underway(q, g.vertices, g.edges, queue, farthest)
    ensures left == Positions(|q.input|) - g.vertices.Keys
    ensures left < unvisited || (left == unvisited && |queue| < |waiting|)
  {
    hide Exploring, EdgesOf;
    var v := Pop(waiting);
    if v.pos in g.vertices {
      DiscardKeepsExploring(q, g.vertices, waiting, v);
      queue, farthest, left := waiting - multiset{v}, far, unvisited;
    } else {
      assert v.pos in unvisited;
      queue, farthest := Visit(q, g, v, waiting, far);
      left := unvisited - {v.pos};
    }
  }

  lemma UnderwayAtStart(q: Query)
    ensures Underway(q, map[], map[], multiset{Vertex(0, NORMAL)}, 0)
  {
    ExplorationStarts(q);
    hide Exploring, EdgesOf;
  }

  lemma UnderwayAtEnd(q: Query, vertices: VertexMap, edges: EdgeMap, farthest: nat)
    requires Underway(q, vertices, edges, multiset{}, farthest)
    ensures Explored(q, Found(vertices, edges, farthest))
  {
    ExploredAll(q, vertices);
    hide Exploring, EdgesOf;
  }

  /** Explores every way to cut the input, nearest position and best type first. */
  method Explore(q: Query, g: SyllableGraph) returns (farthest: nat)
    requires g.vertices == map[] && g.edges == map[]
    modifies g`vertices, g`edges
    ensures Explored(q, Found(g.vertices, g.edges, farthest))
  {
    hide Underway, Explored;
    farthest := 0;
    var queue := multiset{Vertex(0, NORMAL)};
    UnderwayAtStart(q);
    ghost var unvisited := Positions(|q.input|);
    while queue != multiset{}
      invariant unvisited == Positions(|q.input|) - g.vertices.Keys
      invariant Underway(q, g.vertices, g.edges, queue, farthest)
      decreases unvisited, |queue|
    {
      queue, farthest, unvisited := Advance(q, g, queue, farthest, unvisited);
    }
    UnderwayAtEnd(q, g.vertices, g.edges, farthest);
  }
}
