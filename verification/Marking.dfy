/** Joints that are marked as ambiguous because of a spelling that does not survive: when that happens, and a graph in
    which it does. */
module Markings {
  import opened Spellings
  import opened PrismImages
  import opened SyllableGraphs
  import opened Prunings
  import opened PruningTheorems

  // ---------- when a mark outlives its spelling ----------

  /** The start of a spelling that marks a joint survives just when it is no worse than the farthest vertex. */
  lemma StartSurvivesExactly(x: Found, s: nat, p: nat, e: nat)
    requires Forward(x) && Overlap(x, s, p, e)
    ensures s in x.vertices && (s in VerticesFrom(x, 0) <==> x.vertices[s] <= Last(x))
  {
    assert Keeps(x, s, p) && p in PrunedEnds(x, s);
    assert s in x.vertices && s < p <= x.farthest;
    GoodIff(x, s);
    hide Good, PrunedEnds, Overlap, MarkedFrom, Forward;
  }

  /** A mark on `p` is due to a spelling from `s` to `e`. */
  ghost predicate MarkedBy(x: Found, p: nat, s: nat, e: nat) {
    p in VerticesFrom(x, 0) && VerticesFrom(x, 0)[p] == AMBIGUOUS && Overlap(x, s, p, e)
  }

  /** A marked joint has a spelling that marks it and whose start survives just when the start of some such spelling is
      no worse than the farthest vertex. */
  lemma MarkIsSupportedExactly(x: Found, p: nat)
    requires Forward(x)
    ensures (exists s, e :: MarkedBy(x, p, s, e) && s in VerticesFrom(x, 0))
       <==> (exists s, e :: MarkedBy(x, p, s, e) && s in x.vertices && x.vertices[s] <= Last(x))
  {
    hide Forward, Overlap, VerticesFrom;
    forall s, e | MarkedBy(x, p, s, e)
      ensures s in x.vertices && (s in VerticesFrom(x, 0) <==> x.vertices[s] <= Last(x))
    {
      StartSurvivesExactly(x, s, p, e);
    }
  }

  /** The explored edge from `p` to `j` has a spelling that is no worse than the farthest vertex. */
  ghost predicate Passes(x: Found, p: nat, j: nat) {
    exists s :: Has(x.edges, p, j, s) && x.farthest in x.vertices && x.edges[p][j][s].kind <= x.vertices[x.farthest]
  }

  ghost predicate NormalEdge(x: Found, p: nat, j: nat) {
    exists s :: Has(x.edges, p, j, s) && x.edges[p][j][s].kind == NORMAL
  }

  /** A spelling marks a surviving joint just when it is normal, and allowed spellings lead from its start to the joint
      and from there to its end, which survives. */
  lemma OverlapExactly(x: Found, s: nat, p: nat, e: nat)
    requires Forward(x) && p in VerticesFrom(x, 0)
    ensures Overlap(x, s, p, e)
       <==> (NormalEdge(x, s, e) && Passes(x, s, p) && Passes(x, p, e) && e in VerticesFrom(x, 0))
  {
    LinkExactly(x, s, p);
    LinkExactly(x, s, e);
    LinkExactly(x, p, e);
    if n :| Has(x.edges, s, e, n) && x.edges[s][e][n].kind == NORMAL {
      assert Passes(x, s, e);
    }
    if Passes(x, p, e) {
      var n :| Has(x.edges, p, e, n);
      assert p in x.edges && e in x.edges[p] && p < e;
    }
    assert Passes(x, s, p) ==> Link(x, s, p);
    hide Good, Link, MarkedFrom, Allowed;
  }

  /** A surviving joint is ambiguous just when it was so before or a normal spelling marks it. */
  lemma AmbiguousExactly(x: Found, p: nat)
    requires p in VerticesFrom(x, 0)
    ensures VerticesFrom(x, 0)[p] == AMBIGUOUS
       <==> (x.vertices[p] == AMBIGUOUS || exists s, e :: MarkedBy(x, p, s, e))
    ensures VerticesFrom(x, 0)[p] == AMBIGUOUS || VerticesFrom(x, 0)[p] == x.vertices[p]
  {
    hide Overlap, Good;
    if MarkedFrom(x, p, 0) {
      var s, e :| s >= 0 && Overlap(x, s, p, e);
      assert MarkedBy(x, p, s, e);
    }
    if s, e :| MarkedBy(x, p, s, e) {
      assert MarkedFrom(x, p, 0);
    }
  }

  // ---------- a graph ----------

  const KEYS := ["a", "ab", "b", "bc", "c"]

  function OneSyllable(v: nat): Descriptor {
    Descriptor(v, if v == 0 then ABBREVIATION else NORMAL, if v == 0 then 0.5 else 1.0)
  }

  /** "bc" is also "b" and "c", but it starts at a position that only an abbreviation leads to. */
  function Marking(): Query {
    Query("abc", "", Image(KEYS, Some(seq(5, v requires 0 <= v < 5 => [OneSyllable(v)]))))
  }

  // ---------- the matches ----------

  lemma RankOf(keys: seq<string>, i: nat)
    requires i < |keys| && forall j :: 0 <= j < |keys| && j != i ==> keys[j] != keys[i]
    ensures keys[i] in keys && RankIn(keys, keys[i]) == i
  {
  }

  lemma Ranks()
    ensures "a" in KEYS && "ab" in KEYS && "b" in KEYS && "bc" in KEYS && "c" in KEYS
    ensures RankIn(KEYS, "a") == 0 && RankIn(KEYS, "ab") == 1 && RankIn(KEYS, "b") == 2
    ensures RankIn(KEYS, "bc") == 3 && RankIn(KEYS, "c") == 4
  {
    hide RankIn;
    assert KEYS[0] == "a" && KEYS[1] == "ab" && KEYS[2] == "b" && KEYS[3] == "bc" && KEYS[4] == "c";
    RankOf(KEYS, 0);
    RankOf(KEYS, 1);
    RankOf(KEYS, 2);
    RankOf(KEYS, 3);
    RankOf(KEYS, 4);
  }

  lemma NoKeys()
    ensures "" !in KEYS && "abc" !in KEYS
  {
  }

  lemma MatchesNext(img: Image, s: string, n: nat)
    requires n < |s|
    ensures img.MatchesUpTo(s, n + 1)
         == img.MatchesUpTo(s, n) + if s[..n + 1] in img.keys then [Match(img.Rank(s[..n + 1]), n + 1)] else []
    ensures img.MatchesUpTo(s, 0) == if "" in img.keys then [Match(img.Rank(""), 0)] else []
  {
    assert s[..0] == "";
  }

  /** What the rest of the proof needs to know about the input and the prism. */
  ghost predicate Shape(q: Query) {
    && |q.input| == 3
    && q.MatchesAt(0) == [Match(0, 1), Match(1, 2)]
    && q.MatchesAt(1) == [Match(2, 1), Match(3, 2)]
    && q.MatchesAt(2) == [Match(4, 1)]
    && (forall pos: nat :: pos <= 3 ==> q.Skip(pos) == pos)
    && (forall v: nat :: v < 5 ==> q.prism.Syllables(v) == [OneSyllable(v)])
  }

  /** Two matches, and a whole that is no key or no longer than the second. */
  lemma TwoMatches(img: Image, s: string)
    requires 2 <= |s| <= 3 && "" !in img.keys && s[..1] in img.keys && s[..2] in img.keys
    requires |s| == 3 ==> s !in img.keys
    ensures img.Matches(s) == [Match(img.Rank(s[..1]), 1), Match(img.Rank(s[..2]), 2)]
  {
    hide RankIn, Image.MatchesUpTo;
    assert s[..|s|] == s;
    MatchesNext(img, s, 0);
    MatchesNext(img, s, 1);
    if |s| == 3 {
      MatchesNext(img, s, 2);
    }
  }

  lemma OneMatch(img: Image, s: string)
    requires |s| == 1 && "" !in img.keys && s in img.keys
    ensures img.Matches(s) == [Match(img.Rank(s), 1)]
  {
    hide RankIn, Image.MatchesUpTo;
    assert s[..1] == s;
    MatchesNext(img, s, 0);
  }

  lemma MarkingHasShape()
    ensures Shape(Marking())
  {
    MarkingMatches();
    LaterMatches();
    MarkingRest();
    hide Query.MatchesAt, Query.Skip, Image.Syllables;
  }

  lemma MarkingMatches()
    ensures Marking().MatchesAt(0) == [Match(0, 1), Match(1, 2)]
  {
    var s := "abc";
    assert Marking().input[0..] == s && s[..1] == "a" && s[..2] == "ab";
    Ranks();
    NoKeys();
    hide KEYS, RankIn, Image.Matches;
    TwoMatches(Marking().prism, s);
  }

  lemma LaterMatches()
    ensures Marking().MatchesAt(1) == [Match(2, 1), Match(3, 2)] && Marking().MatchesAt(2) == [Match(4, 1)]
  {
    var t, u := "bc", "c";
    assert Marking().input[1..] == t && Marking().input[2..] == u && t[..1] == "b" && t[..2] == "bc";
    Ranks();
    NoKeys();
    hide KEYS, RankIn, Image.Matches;
    TwoMatches(Marking().prism, t);
    OneMatch(Marking().prism, u);
  }

  lemma MarkingRest()
    ensures forall pos: nat :: pos <= 3 ==> Marking().Skip(pos) == pos
    ensures forall v: nat :: v < 5 ==> Marking().prism.Syllables(v) == [OneSyllable(v)]
  {
    hide OneSyllable;
  }

  // ---------- the edges ----------

  lemma InsertOne(d: Descriptor, end: nat)
    ensures InsertAll(map[], [d], end) == map[d.syllable := PropertiesOf(d, end)]
    ensures BestKind([d]) == Better(INVALID, d.kind)
  {
    assert [d][..0] == [];
  }

  /** A match to a new place adds an edge with its one syllable. */
  lemma EdgeNext(q: Query, p: nat, n: nat, v: nat, length: nat)
    requires Shape(q) && p + length <= 3 && 0 < v < 5 && 0 < length
    requires n < |q.MatchesAt(p)| && q.MatchesAt(p)[n] == Match(v, length)
    requires p + length !in q.EndsUpTo(p, n)
    ensures q.EndsUpTo(p, n + 1) == q.EndsUpTo(p, n)[p + length := map[v := Properties(NORMAL, p + length, 1.0)]]
  {
    InsertOne(OneSyllable(v), p + length);
    hide Query.MatchesAt, Query.Skip, InsertAll, Image.Syllables;
  }

  lemma MarkingEnds(q: Query)
    requires Shape(q)
    ensures q.Ends(1) == map[2 := map[2 := Properties(NORMAL, 2, 1.0)], 3 := map[3 := Properties(NORMAL, 3, 1.0)]]
    ensures q.Ends(2) == map[3 := map[4 := Properties(NORMAL, 3, 1.0)]]
  {
    assert q.EndsUpTo(1, 0) == map[] && q.EndsUpTo(2, 0) == map[];
    hide Query.MatchesAt, Query.EndsUpTo, Query.Skip;
    EdgeNext(q, 1, 0, 2, 1);
    EdgeNext(q, 1, 1, 3, 2);
    EdgeNext(q, 2, 0, 4, 1);
  }

  // ---------- the vertices ----------

  /** A step goes on from a normal vertex. */
  lemma Goes(q: Query, p: nat, v: nat, length: nat)
    requires Shape(q) && q.Step(p, Match(v, length)) && q.Attained(p, NORMAL) && v < 5 && p + length <= 3
    ensures q.Attained(p + length, OneSyllable(v).kind)
  {
    hide Query.Step, Query.Attained, Query.MatchesAt, Query.Skip, Image.Syllables, BestKind;
    WalkExtend(q, p, NORMAL, Match(v, length));
    InsertOne(OneSyllable(v), 0);
  }

  lemma MarkingRoutes(q: Query)
    requires Shape(q)
    ensures q.Attained(1, ABBREVIATION) && q.Attained(2, NORMAL) && q.Attained(3, NORMAL)
  {
    assert q.Walk(0, Arrived, 0) && q.Cost(Arrived) == NORMAL;
    assert q.Step(0, Match(0, 1)) && q.Step(0, Match(1, 2)) && q.Step(2, Match(4, 1));
    hide Query.Step, Query.Walk, Query.Cost, Query.MatchesAt, Query.Skip, Image.Syllables, Shape;
    Goes(q, 0, 0, 1);
    Goes(q, 0, 1, 2);
    Goes(q, 2, 4, 1);
  }

  /** Only the abbreviation leads to 1. */
  lemma OnlyAbbreviation(q: Query, r: Route)
    requires Shape(q) && q.Walk(0, r, 1)
    ensures q.Cost(r) >= ABBREVIATION
  {
    assert r.Via?;
    hide Query.MatchesAt, Query.Skip, Image.Syllables, BestKind;
    WalkForward(q, r.first.length, r.rest, 1);
    InsertOne(OneSyllable(0), 0);
  }

  lemma WithinInput(q: Query, p: nat)
    requires q.Reachable(p)
    ensures p <= |q.input|
  {
    var r :| q.Walk(0, r, p);
    WalkForward(q, 0, r, p);
    hide Query.Step;
  }

  lemma MarkingVertices(q: Query, x: Found)
    requires Shape(q) && Explored(q, x)
    ensures {1, 2, 3} <= x.vertices.Keys && x.vertices[1] == ABBREVIATION && x.vertices[2] == NORMAL
    ensures x.farthest == 3 && x.vertices[3] == NORMAL
  {
    hide Explored, Query.Walk, Query.Cost, Query.Step, Query.MatchesAt, Query.Skip, Image.Syllables;
    MarkingRoutes(q);
    Visited(q, x, 1, ABBREVIATION);
    Visited(q, x, 2, NORMAL);
    Visited(q, x, 3, NORMAL);
    var s :| q.Walk(0, s, 1) && q.Cost(s) == x.vertices[1];
    OnlyAbbreviation(q, s);
  }

  lemma Visited(q: Query, x: Found, p: nat, t: SpellingType)
    requires Explored(q, x) && q.Attained(p, t)
    ensures p in x.vertices && x.vertices[p] <= t && q.Attained(p, x.vertices[p]) && p <= x.farthest <= |q.input|
  {
    hide EdgesOf, Query.Walk, Query.Cost;
    var r :| q.Walk(0, r, p) && q.Cost(r) == t;
    assert q.Reachable(p) && q.Reachable(x.farthest) && q.Minimax(p, x.vertices[p]);
    WithinInput(q, x.farthest);
  }

  lemma MarkingEdges(q: Query, x: Found)
    requires Shape(q) && Explored(q, x) && {1, 2} <= x.vertices.Keys
    ensures 1 in x.edges && x.edges[1] == q.Ends(1) && 2 in x.edges && x.edges[2] == q.Ends(2)
  {
    hide Settled, Query.MatchesAt, Query.Ends, Query.Reachable, Query.Skip, Image.Syllables;
  }

  /** The joint of "b" and "c" is marked as ambiguous, although the start of "bc" does not survive. */
  lemma MarkOutlivesSpelling(x: Found)
    requires Explored(Marking(), x)
    ensures Overlap(x, 1, 2, 3) && 1 !in VerticesFrom(x, 0)
    ensures 2 in VerticesFrom(x, 0) && VerticesFrom(x, 0)[2] == AMBIGUOUS
  {
    hide Explored, Shape, Query.Ends, Marking;
    var q := Marking();
    MarkingHasShape();
    MarkingVertices(q, x);
    MarkingEnds(q);
    MarkingEdges(q, x);
    MarksJoint(x);
  }

  lemma MarksJoint(x: Found)
    requires {1, 2, 3} <= x.vertices.Keys && x.farthest == 3
    requires x.vertices[1] == ABBREVIATION && x.vertices[2] == NORMAL && x.vertices[3] == NORMAL
    requires 1 in x.edges && 2 in x.edges
    requires x.edges[1] == map[2 := map[2 := Properties(NORMAL, 2, 1.0)], 3 := map[3 := Properties(NORMAL, 3, 1.0)]]
    requires x.edges[2] == map[3 := map[4 := Properties(NORMAL, 3, 1.0)]]
    ensures Overlap(x, 1, 2, 3) && 1 !in VerticesFrom(x, 0)
    ensures 2 in VerticesFrom(x, 0) && VerticesFrom(x, 0)[2] == AMBIGUOUS
  {
    assert 2 in Allowed(x.edges[1][2], NORMAL) && 3 in Allowed(x.edges[1][3], NORMAL);
    assert 4 in Allowed(x.edges[2][3], NORMAL);
    assert Link(x, 1, 2) && Link(x, 1, 3) && Link(x, 2, 3);
    hide Allowed, Link;
    assert Good(x, 3);
    assert Good(x, 2);
    assert Overlap(x, 1, 2, 3);
  }
}
