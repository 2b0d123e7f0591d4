/** Building the whole syllable graph, indexing it by syllable, and matching codes against the index. */
module Syllabifiers {
  import opened Spellings
  import opened PrismImages
  import opened SyllableGraphs
  import opened Explorations
  import opened Prunings
  import opened PruningTheorems
  import opened Completions
  import ExpandSearches

  // ---------- the index ----------

  /** The properties of a syllable on the edges that end in [lo, hi), farthest end first. */
  function Listed(ends: EndVertexMap, s: int, lo: nat, hi: nat): seq<Properties>
    decreases hi - lo
  {
    if lo >= hi then [] else
      Listed(ends, s, lo + 1, hi) + if lo in ends && s in ends[lo] then [ends[lo][s]] else []
  }

  /** The index of the edges that end in [lo, hi). */
  ghost predicate IndexOf(index: SpellingIndex, ends: EndVertexMap, lo: nat, hi: nat) {
    forall s :: (if s in index then index[s] else []) == Listed(ends, s, lo, hi) && (s in index ==> index[s] != [])
  }

  /** What is listed for `s` once all the syllables of an edge except those in `todo` have been added. */
  function Extended(known: SpellingIndex, sp: SpellingMap, todo: set<int>, s: int): seq<Properties> {
    (if s in known then known[s] else []) + if s in sp && s !in todo then [sp[s]] else []
  }

  /** Adds the spellings of one edge to the index of its start. */
  method IndexEdge(known: SpellingIndex, ends: EndVertexMap, end: nat, hi: nat) returns (index: SpellingIndex)
    requires end < hi && end in ends && IndexOf(known, ends, end + 1, hi)
    ensures IndexOf(index, ends, end, hi)
  {
    hide Listed;
    index := known;
    var todo := ends[end].Keys;
    while todo != {}
      invariant todo <= ends[end].Keys
      invariant forall s :: s in index <==> s in known || (s in ends[end] && s !in todo)
      invariant forall s :: s in index ==> index[s] == Extended(known, ends[end], todo, s)
      decreases todo
    {
      var s := Pick(todo);
      todo := todo - {s};
      index := index[s := (if s in index then index[s] else []) + [ends[end][s]]];
    }
    forall s
      ensures (if s in index then index[s] else []) == Listed(ends, s, end, hi)
    {
      ListedNext(ends, s, end, hi);
    }
  }

  lemma ListedNext(ends: EndVertexMap, s: int, lo: nat, hi: nat)
    requires lo < hi
    ensures Listed(ends, s, lo, hi)
      == Listed(ends, s, lo + 1, hi) + if lo in ends && s in ends[lo] then [ends[lo][s]] else []
  {
  }

  /** Indexes the edges out of one vertex. */
  method IndexVertex(ends: EndVertexMap, hi: nat) returns (index: SpellingIndex)
    ensures IndexOf(index, ends, 0, hi)
  {
    index := map[];
    for end := hi downto 0
      invariant IndexOf(index, ends, end, hi)
    {
      if end in ends {
        index := IndexEdge(index, ends, end, hi);
      }
    }
  }

  ghost predicate Transposed(edges: EdgeMap, indices: SpellingIndices, hi: nat) {
    indices.Keys == edges.Keys && forall p :: p in edges ==> IndexOf(indices[p], edges[p], 0, hi)
  }

  /** Turns the edges into an index from a position and a syllable to the ways to go on. */
  method Transpose(g: SyllableGraph, hi: nat)
    requires g.indices == map[]
    modifies g`indices
    ensures Transposed(g.edges, g.indices, hi)
  {
    var todo: set<nat> := g.edges.Keys;
    hide IndexOf;
    while todo != {}
      invariant todo <= g.edges.Keys && g.indices.Keys == g.edges.Keys - todo
      invariant forall p :: p in g.indices ==> IndexOf(g.indices[p], g.edges[p], 0, hi)
      decreases todo
    {
      var start := Pick(todo);
      todo := todo - {start};
      var index := IndexVertex(g.edges[start], hi);
      g.indices := g.indices[start := index];
    }
  }

  lemma {:induction false} ListedExactly(ends: EndVertexMap, s: int, lo: nat, hi: nat, props: Properties)
    ensures props in Listed(ends, s, lo, hi)
      <==> exists j :: lo <= j < hi && j in ends && s in ends[j] && props == ends[j][s]
    decreases hi - lo
  {
    if lo < hi {
      ListedExactly(ends, s, lo + 1, hi, props);
      if lo in ends && s in ends[lo] {
        assert props == ends[lo][s] ==> exists j :: lo <= j < hi && j in ends && s in ends[j] && props == ends[j][s];
      }
    }
  }

  /** The ways to go on are listed by their ends, the farthest first. */
  lemma {:induction false} ListedDescends(ends: EndVertexMap, s: int, lo: nat, hi: nat)
    requires forall j :: j in ends && s in ends[j] ==> ends[j][s].endPos == j
    ensures forall i :: 0 <= i < |Listed(ends, s, lo, hi)| ==> lo <= Listed(ends, s, lo, hi)[i].endPos < hi
    ensures forall i, k :: 0 <= i < k < |Listed(ends, s, lo, hi)| ==>
      Listed(ends, s, lo, hi)[i].endPos > Listed(ends, s, lo, hi)[k].endPos
    decreases hi - lo
  {
    if lo < hi {
      ListedDescends(ends, s, lo + 1, hi);
      ListedNext(ends, s, lo, hi);
      hide Listed;
    }
  }

  // ---------- the whole graph ----------

  /** Wherever exploration ends, completing what is left of the input comes to an end. */
  ghost predicate CanComplete(q: Query, alphabet: string) {
    && ExpandSearches.AscendingChars(alphabet)
    && forall x :: Explored(q, x) && x.farthest < |q.input| ==> Completable(q, alphabet, x.farthest)
  }

  /** Cuts the input into syllables in every way that the prism allows, and completes what is left if that is
      enabled. */
  method BuildSyllableGraph(q: Query, completion: bool, alphabet: string, g: SyllableGraph)
    returns (farthest: nat, ghost found: Found, ghost ms: seq<Match>)
    requires g.vertices == map[] && g.edges == map[] && g.indices == map[]
    requires completion ==> CanComplete(q, alphabet)
    modifies g
    ensures q.input == "" ==> farthest == 0 && unchanged(g)
    ensures q.input != "" ==> Explored(q, found) && Searched(q, completion, alphabet, found.farthest, ms)
    ensures q.input != "" ==> g.vertices == VerticesFrom(found, 0) && found.farthest <= |q.input|
    ensures q.input != "" ==> g.edges == WithCompletion(q, EdgesFrom(found, 0), found.farthest, ms)
    ensures q.input != "" ==> farthest == if ms == [] then found.farthest else |q.input|
    ensures q.input != "" ==> g.inputLength == |q.input| && g.interpretedLength == farthest
    ensures q.input != "" ==> Ready(g.edges, g.indices, g.interpretedLength)
  {
    hide *;
    if q.input == "" {
      return 0, Found(map[], map[], 0), [];
    }
    farthest := Explore(q, g);
    found := Found(g.vertices, g.edges, farthest);
    ExploredIsForward(q, found);
    FarthestWithin(q, found);
    Prune(g, farthest);
    PrunedIsLabelled(q, found);
    NothingBeyond(g.edges, farthest);
    if completion && farthest < |q.input| {
      CompletesFrom(q, alphabet, found);
    }
    farthest, ms := Complete(q, completion, alphabet, g, farthest);
    CompletedIsLabelled(q, EdgesFrom(found, 0), found.farthest, ms);
    g.inputLength := |q.input|;
    g.interpretedLength := farthest;
    Transpose(g, farthest + 1);
    IsReady(g.edges, g.indices, farthest);
  }

  lemma IsReady(edges: EdgeMap, indices: SpellingIndices, len: nat)
    requires Transposed(edges, indices, len + 1) && Labelled(edges, len)
    ensures Ready(edges, indices, len)
  {
  }

  lemma CompletesFrom(q: Query, alphabet: string, x: Found)
    requires CanComplete(q, alphabet) && Explored(q, x) && x.farthest < |q.input|
    ensures Completable(q, alphabet, x.farthest) && ExpandSearches.AscendingChars(alphabet)
  {
  }

  lemma NothingBeyond(edges: EdgeMap, len: nat)
    requires Labelled(edges, len)
    ensures forall j :: len in edges && j in edges[len] ==> j <= len
  {
  }

  lemma FarthestWithin(q: Query, x: Found)
    requires Explored(q, x)
    ensures x.farthest <= |q.input|
  {
    var r :| q.Walk(0, r, x.farthest);
    WalkForward(q, 0, r, x.farthest);
  }

  lemma CompletedIsLabelled(q: Query, edges: EdgeMap, from: nat, ms: seq<Match>)
    requires Labelled(edges, from) && from <= |q.input| && (ms != [] ==> from < |q.input|)
    ensures Labelled(WithCompletion(q, edges, from, ms), if ms == [] then from else |q.input|)
  {
    hide Completed;
    var all: EdgeMap := WithCompletion(q, edges, from, ms);
    var end := |q.input|;
    forall p, j, s | Has(all, p, j, s)
      ensures all[p][j][s].endPos == j
    {
      if !Has(edges, p, j, s) && ms != [] {
        CompletedWorth(q.prism, ms, end - from, end, s);
      }
    }
  }

  /** Every spelling knows where its edge ends, and no edge ends beyond `len`. */
  ghost predicate Labelled(edges: EdgeMap, len: nat) {
    && (forall p, j :: p in edges && j in edges[p] ==> p < j <= len)
    && (forall p, j, s :: Has(edges, p, j, s) ==> edges[p][j][s].endPos == j)
  }

  ghost predicate Ready(edges: EdgeMap, indices: SpellingIndices, len: nat) {
    Transposed(edges, indices, len + 1) && Labelled(edges, len)
  }

  lemma SpellingLabelled(q: Query, x: Found, p: nat, j: nat, s: int)
    requires Explored(q, x) && Has(x.edges, p, j, s)
    ensures x.edges[p][j][s].endPos == j
  {
    hide Query.Reachable, Settled, EdgesOf, SpelledBy;
    var m, d := SpellingIsSyllable(q, x, p, j, s);
  }

  lemma PrunedGoesForward(x: Found, p: nat, j: nat)
    requires Forward(x) && p in EdgesFrom(x, 0) && j in EdgesFrom(x, 0)[p]
    ensures p < j <= x.farthest
  {
    hide Good;
  }

  lemma PrunedIsLabelled(q: Query, x: Found)
    requires Explored(q, x)
    ensures Labelled(EdgesFrom(x, 0), x.farthest)
  {
    ExploredIsForward(q, x);
    var edges: EdgeMap := EdgesFrom(x, 0);
    hide Explored, Forward, Good, EdgesFrom;
    forall p, j | p in edges && j in edges[p]
      ensures p < j <= x.farthest
    {
      PrunedGoesForward(x, p, j);
    }
    forall p, j, s | Has(edges, p, j, s)
      ensures edges[p][j][s].endPos == j
    {
      PrunedSpelling(x, p, j, s);
      SpellingLabelled(q, x, p, j, s);
    }
  }

  // ---------- matching the rest of a code ----------

  /** A walk over the edges from `from` to `to` spells the code from `depth` on. */
  ghost predicate Spells(edges: EdgeMap, code: seq<int>, depth: nat, from: nat, to: nat)
    decreases if depth < |code| then |code| - depth else 0
  {
    if depth >= |code| then from == to
    else exists j :: Has(edges, from, j, code[depth]) && Spells(edges, code, depth + 1, j, to)
  }

  /** `best` is the greatest end of a walk that spells the rest of the code, or 0 if there is no such walk. */
  ghost predicate IsBest(edges: EdgeMap, code: seq<int>, depth: nat, from: nat, best: nat) {
    && (best != 0 ==> Spells(edges, code, depth, from, best))
    && (forall to: nat :: Spells(edges, code, depth, from, to) ==> 0 < to <= best)
  }

  /** The same over the first `n` ways to take the next step. */
  ghost predicate IsBestOf(edges: EdgeMap, code: seq<int>, depth: nat, steps: seq<Properties>, n: nat, best: nat)
    requires n <= |steps|
  {
    && (best != 0 ==> exists k :: 0 <= k < n && Spells(edges, code, depth, steps[k].endPos, best))
    && (forall k, to: nat :: 0 <= k < n && Spells(edges, code, depth, steps[k].endPos, to) ==> 0 < to <= best)
  }

  lemma BestSoFar(edges: EdgeMap, code: seq<int>, depth: nat, steps: seq<Properties>, n: nat, best: nat, next: nat)
    requires n < |steps| && IsBestOf(edges, code, depth, steps, n, best)
    requires IsBest(edges, code, depth, steps[n].endPos, next)
    ensures IsBestOf(edges, code, depth, steps, n + 1, if next > best then next else best)
  {
  }

  /** The listed steps are the edges that the next syllable spells. */
  lemma StepsAreEdges(edges: EdgeMap, indices: SpellingIndices, len: nat, from: nat, s: int, j: nat)
    requires Ready(edges, indices, len) && from in edges && s in indices[from]
    ensures Has(edges, from, j, s) <==> exists k :: 0 <= k < |indices[from][s]| && indices[from][s][k].endPos == j
  {
    hide Listed;
    var steps := indices[from][s];
    assert IndexOf(indices[from], edges[from], 0, len + 1);
    if Has(edges, from, j, s) {
      ListedExactly(edges[from], s, 0, len + 1, edges[from][j][s]);
    }
    if k :| 0 <= k < |steps| && steps[k].endPos == j {
      ListedExactly(edges[from], s, 0, len + 1, steps[k]);
      var j' :| j' in edges[from] && s in edges[from][j'] && steps[k] == edges[from][j'][s];
      assert Has(edges, from, j', s);
    }
  }

  /** Follows the rest of a code through the index, and returns the greatest position it can reach. */
  method MatchExtraCode(extraCode: Option<seq<int>>, depth: nat, ghost edges: EdgeMap, indices: SpellingIndices,
                        len: nat, pos: nat)
    returns (best: nat)
    requires Ready(edges, indices, len)
    ensures extraCode.None? || depth >= |extraCode.value| ==> best == pos
    ensures extraCode.Some? && (pos > 0 || depth < |extraCode.value|) ==>
      IsBest(edges, extraCode.value, depth, pos, best)
    decreases if extraCode.Some? && depth < |extraCode.value| then |extraCode.value| - depth else 0
  {
    hide Ready, IsBest, IsBestOf;
    if extraCode.None? || depth >= |extraCode.value| {
      if extraCode.Some? && pos > 0 { NothingLeft(edges, extraCode.value, depth, pos); }
      return pos;
    }
    var code := extraCode.value;
    if pos >= len || pos !in indices || code[depth] !in indices[pos] {
      NoStep(edges, indices, len, code, depth, pos);
      return 0;
    }
    var steps := indices[pos][code[depth]];
    best := 0;
    BestOfNone(edges, code, depth + 1, steps);
    for i := 0 to |steps|
      invariant IsBestOf(edges, code, depth + 1, steps, i, best)
    {
      StepEndsLater(edges, indices, len, pos, code[depth], i);
      var end := MatchExtraCode(extraCode, depth + 1, edges, indices, len, steps[i].endPos);
      BestSoFar(edges, code, depth + 1, steps, i, best, end);
      if end == 0 { continue; }
      if end > best {
        best := end;
      }
    }
    BestOfSteps(edges, indices, len, code, depth, pos, best);
  }

  lemma NothingLeft(edges: EdgeMap, code: seq<int>, depth: nat, pos: nat)
    requires depth >= |code| && pos > 0
    ensures IsBest(edges, code, depth, pos, pos)
  {
  }

  lemma BestOfNone(edges: EdgeMap, code: seq<int>, depth: nat, steps: seq<Properties>)
    ensures IsBestOf(edges, code, depth, steps, 0, 0)
  {
  }

  lemma NoStep(edges: EdgeMap, indices: SpellingIndices, len: nat, code: seq<int>, depth: nat, pos: nat)
    requires Ready(edges, indices, len) && depth < |code|
    requires pos >= len || pos !in indices || code[depth] !in indices[pos]
    ensures IsBest(edges, code, depth, pos, 0)
  {
    forall to: nat | Spells(edges, code, depth, pos, to)
      ensures false
    {
      var j :| Has(edges, pos, j, code[depth]) && Spells(edges, code, depth + 1, j, to);
      ReadyHas(edges, indices, len, pos, j, code[depth]);
    }
  }

  lemma ReadyHas(edges: EdgeMap, indices: SpellingIndices, len: nat, p: nat, j: nat, s: int)
    requires Ready(edges, indices, len) && Has(edges, p, j, s)
    ensures p < len && p in indices && s in indices[p]
  {
    hide Listed;
    ListedExactly(edges[p], s, 0, len + 1, edges[p][j][s]);
    assert edges[p][j][s] in Listed(edges[p], s, 0, len + 1);
    assert IndexOf(indices[p], edges[p], 0, len + 1);
  }

  lemma StepEndsLater(edges: EdgeMap, indices: SpellingIndices, len: nat, from: nat, s: int, i: nat)
    requires Ready(edges, indices, len) && from in indices && s in indices[from] && i < |indices[from][s]|
    ensures indices[from][s][i].endPos > from
  {
    var j := indices[from][s][i].endPos;
    StepsAreEdges(edges, indices, len, from, s, j);
    assert Has(edges, from, j, s);
  }

  lemma BestOfSteps(edges: EdgeMap, indices: SpellingIndices, len: nat, code: seq<int>, depth: nat, from: nat,
                    best: nat)
    requires Ready(edges, indices, len) && depth < |code| && from in indices && code[depth] in indices[from]
    requires var steps := indices[from][code[depth]]; IsBestOf(edges, code, depth + 1, steps, |steps|, best)
    ensures IsBest(edges, code, depth, from, best)
  {
    var s, steps := code[depth], indices[from][code[depth]];
    if best != 0 {
      var k :| 0 <= k < |steps| && Spells(edges, code, depth + 1, steps[k].endPos, best);
      StepsAreEdges(edges, indices, len, from, s, steps[k].endPos);
      assert Has(edges, from, steps[k].endPos, s);
    }
    forall to: nat | Spells(edges, code, depth, from, to)
      ensures 0 < to <= best
    {
      var j :| Has(edges, from, j, s) && Spells(edges, code, depth + 1, j, to);
      StepsAreEdges(edges, indices, len, from, s, j);
      var k :| 0 <= k < |steps| && steps[k].endPos == j;
    }
  }
}
