/** What survives pruning is exactly the union of the allowed paths from the start to the farthest position. */
module PruningTheorems {
  import opened Spellings
  import opened PrismImages
  import opened SyllableGraphs
  import opened Prunings

  // ---------- edges and steps ----------

  lemma {:induction false} BestIsLeast(ds: seq<Descriptor>, d: Descriptor)
    requires d in ds
    ensures BestKind(ds) <= d.kind
  {
    if d != ds[|ds| - 1] {
      BestIsLeast(ds[..|ds| - 1], d);
    }
  }

  lemma {:induction false} BestIsAttained(ds: seq<Descriptor>) returns (d: Descriptor)
    requires ds != []
    ensures d in ds && d.kind == BestKind(ds)
  {
    var init, last := ds[..|ds| - 1], ds[|ds| - 1];
    if init == [] || last.kind < BestKind(init) {
      return last;
    }
    d := BestIsAttained(init);
  }

  lemma {:induction false} InsertedFrom(sp: SpellingMap, ds: seq<Descriptor>, end: nat, s: int)
    requires s in InsertAll(sp, ds, end)
    ensures (s in sp && InsertAll(sp, ds, end)[s] == sp[s])
         || (s !in sp && exists d :: d in ds && d.syllable == s && InsertAll(sp, ds, end)[s] == PropertiesOf(d, end))
  {
    if ds != [] {
      var init, last := ds[..|ds| - 1], ds[|ds| - 1];
      if s in InsertAll(sp, init, end) {
        InsertedFrom(sp, init, end, s);
      } else {
        if s in sp { InsertKeeps(sp, init, end, s); }
        assert last in ds;
      }
    }
  }

  /** A syllable that is new to an edge gets the properties that the first entry for it has. */
  lemma {:induction false} InsertedFirst(sp: SpellingMap, ds: seq<Descriptor>, end: nat, i: nat)
    requires i < |ds| && ds[i].syllable !in sp && forall k :: 0 <= k < i ==> ds[k].syllable != ds[i].syllable
    ensures ds[i].syllable in InsertAll(sp, ds, end)
    ensures InsertAll(sp, ds, end)[ds[i].syllable] == Properties(ds[i].kind, end, ds[i].credibility)
    decreases |ds|
  {
    if i < |ds| - 1 {
      InsertedFirst(sp, ds[..|ds| - 1], end, i);
    } else if ds[i].syllable in InsertAll(sp, ds[..i], end) {
      InsertedFrom(sp, ds[..i], end, ds[i].syllable);
    }
  }

  lemma {:induction false} InsertKeeps(sp: SpellingMap, ds: seq<Descriptor>, end: nat, s: int)
    requires s in sp
    ensures s in InsertAll(sp, ds, end) && InsertAll(sp, ds, end)[s] == sp[s]
  {
    if ds != [] {
      InsertKeeps(sp, ds[..|ds| - 1], end, s);
    }
  }

  lemma {:induction false} InsertHas(sp: SpellingMap, ds: seq<Descriptor>, end: nat, d: Descriptor)
    requires d in ds
    ensures d.syllable in InsertAll(sp, ds, end)
  {
    if d != ds[|ds| - 1] {
      InsertHas(sp, ds[..|ds| - 1], end, d);
    }
  }

  ghost predicate SpelledBy(q: Query, p: nat, j: nat, m: Match, d: Descriptor) {
    q.Step(p, m) && q.EndOf(p, m) == j && d in q.prism.Syllables(m.value)
  }

  ghost predicate Spelled(q: Query, p: nat, j: nat, s: int, props: Properties) {
    exists m, d :: SpelledBy(q, p, j, m, d) && d.syllable == s && props == PropertiesOf(d, j)
  }

  /** An edge comes from a step, and each of its spellings from a syllable of a step to the same end. */
  lemma {:induction false} EdgeFromStep(q: Query, p: nat, n: nat, j: nat)
    requires p < |q.input| && n <= |q.MatchesAt(p)| && j in q.EndsUpTo(p, n)
    ensures q.EndsUpTo(p, n)[j] != map[]
    ensures exists m :: q.Step(p, m) && q.EndOf(p, m) == j
    ensures forall s :: s in q.EndsUpTo(p, n)[j] ==> Spelled(q, p, j, s, q.EndsUpTo(p, n)[j][s])
  {
    var ends := q.EndsUpTo(p, n - 1);
    var m := q.MatchesAt(p)[n - 1];
    if j in ends {
      EdgeFromStep(q, p, n - 1, j);
    }
    if m.length > 0 && q.EndOf(p, m) == j {
      assert q.Step(p, m);
      var sp, ds := SpellingsOf(ends, j), q.prism.Syllables(m.value);
      forall s | s in InsertAll(sp, ds, j)
        ensures Spelled(q, p, j, s, q.EndsUpTo(p, n)[j][s])
      {
        InsertedFrom(sp, ds, j, s);
        if s !in sp {
          var d :| d in ds && d.syllable == s && InsertAll(sp, ds, j)[s] == PropertiesOf(d, j);
          assert SpelledBy(q, p, j, m, d);
        }
      }
      InsertNotEmpty(sp, ds, j);
    }
  }

  lemma InsertNotEmpty(sp: SpellingMap, ds: seq<Descriptor>, end: nat)
    requires ds != []
    ensures InsertAll(sp, ds, end) != map[]
  {
    assert ds[|ds| - 1].syllable in InsertAll(sp, ds, end);
  }

  // ---------- regular prisms ----------

  /** `b` is `a`, with nothing but delimiters after it. */
  predicate Variant(a: string, b: string, delimiters: string) {
    a != "" && a <= b && forall i :: |a| <= i < |b| ==> b[i] in delimiters
  }

  ghost predicate AgreeOn(ds: seq<Descriptor>, es: seq<Descriptor>) {
    forall d, e :: d in ds && e in es && d.syllable == e.syllable ==> d == e
  }

  /** A syllable that two keys have in common is described in the same way for both. */
  ghost predicate Agree(img: Image, a: string, b: string)
    requires a in img.keys && b in img.keys
  {
    AgreeOn(img.Syllables(img.Rank(a)), img.Syllables(img.Rank(b)))
  }

  /** Keys that differ by delimiters at the end agree, and so does each key with itself. */
  ghost predicate Regular(img: Image, delimiters: string) {
    forall a, b :: a in img.keys && b in img.keys && Variant(a, b, delimiters) ==> Agree(img, a, b)
  }

  predicate Undelimited(img: Image, delimiters: string) {
    forall key, c :: key in img.keys && c in key ==> c !in delimiters
  }

  /** Without delimiters in the keys, it is enough that no spelling has a syllable twice. */
  lemma UndelimitedIsRegular(img: Image, delimiters: string)
    requires Undelimited(img, delimiters) && forall a :: a in img.keys ==> Agree(img, a, a)
    ensures Regular(img, delimiters)
  {
    forall a, b | a in img.keys && b in img.keys && Variant(a, b, delimiters)
      ensures a == b
    {
      NoOtherVariant(a, b, delimiters);
    }
  }

  lemma NoOtherVariant(a: string, b: string, delimiters: string)
    requires Variant(a, b, delimiters) && forall c :: c in b ==> c !in delimiters
    ensures a == b
  {
    var rest := b[|a|..];
    FirstIsElement(rest);
    assert forall c :: c in rest ==> c in delimiters && c in b;
    assert b == a + rest;
  }

  lemma FirstIsElement(s: string)
    ensures s == "" || s[0] in s
  {
  }

  /** The key that a step matches. */
  function KeyOf(q: Query, p: nat, m: Match): string
    requires p + m.length <= |q.input|
  {
    q.input[p..p + m.length]
  }

  lemma StepMatchesKey(q: Query, p: nat, m: Match)
    requires q.Step(p, m)
    ensures p + m.length <= |q.input| && KeyOf(q, p, m) in q.prism.keys && m.value == q.prism.Rank(KeyOf(q, p, m))
    ensures KeyOf(q, p, m) != ""
  {
    StepExactly(q, p, m);
  }

  lemma ShorterKey(s: string, p: nat, k: nat, n: nat)
    requires k <= n && p + n <= |s|
    ensures s[p..p + k] == s[p..p + n][..k] && s[p..p + k] <= s[p..p + n]
  {
  }

  /** Two steps that end in the same place match keys that differ by delimiters at the end. */
  lemma SameEndIsVariant(q: Query, p: nat, m: Match, n: Match)
    requires q.Step(p, m) && q.Step(p, n) && q.EndOf(p, m) == q.EndOf(p, n) && m.length <= n.length
    ensures Variant(KeyOf(q, p, m), KeyOf(q, p, n), q.delimiters)
  {
    StepMatchesKey(q, p, m);
    var a, b := KeyOf(q, p, m), KeyOf(q, p, n);
    ShorterKey(q.input, p, m.length, n.length);
    forall i | |a| <= i < |b|
      ensures b[i] in q.delimiters
    {
      assert q.input[p + i] in q.delimiters;
    }
  }

  /** In a regular prism two steps that end in the same place have no different descriptors of one syllable. */
  lemma StepsAgree(q: Query, p: nat, m: Match, n: Match, d: Descriptor, e: Descriptor)
    requires Regular(q.prism, q.delimiters) && q.Step(p, m) && q.Step(p, n) && q.EndOf(p, m) == q.EndOf(p, n)
    requires d in q.prism.Syllables(m.value) && e in q.prism.Syllables(n.value) && d.syllable == e.syllable
    ensures d == e
  {
    hide Query.Step, Query.EndOf, Variant, KeyOf;
    StepMatchesKey(q, p, m);
    StepMatchesKey(q, p, n);
    if m.length <= n.length {
      SameEndIsVariant(q, p, m, n);
    } else {
      SameEndIsVariant(q, p, n, m);
    }
  }

  /** If no key has a delimiter, two steps from one place never end in the same place. */
  lemma StepsDiffer(q: Query, p: nat, m: Match, n: Match)
    requires Undelimited(q.prism, q.delimiters) && q.Step(p, m) && q.Step(p, n) && q.EndOf(p, m) == q.EndOf(p, n)
    ensures m == n
  {
    if m.length <= n.length {
      UndelimitedSteps(q, p, m, n);
    } else {
      UndelimitedSteps(q, p, n, m);
    }
  }

  lemma UndelimitedSteps(q: Query, p: nat, m: Match, n: Match)
    requires Undelimited(q.prism, q.delimiters) && q.Step(p, m) && q.Step(p, n) && q.EndOf(p, m) == q.EndOf(p, n)
    requires m.length <= n.length
    ensures m == n
  {
    hide Query.Step, Query.EndOf;
    StepMatchesKey(q, p, m);
    StepMatchesKey(q, p, n);
    SameEndIsVariant(q, p, m, n);
    NoOtherVariant(KeyOf(q, p, m), KeyOf(q, p, n), q.delimiters);
  }

  /** In a regular prism every syllable of a step is on its edge, with its own properties. */
  lemma {:induction false} StepIsOnEdge(q: Query, p: nat, n: nat, k: nat, d: Descriptor)
    requires Regular(q.prism, q.delimiters) && p < |q.input| && k < n <= |q.MatchesAt(p)|
    requires var m := q.MatchesAt(p)[k]; m.length > 0 && d in q.prism.Syllables(m.value)
    ensures var j := q.EndOf(p, q.MatchesAt(p)[k]);
      j in q.EndsUpTo(p, n) && d.syllable in q.EndsUpTo(p, n)[j]
      && q.EndsUpTo(p, n)[j][d.syllable] == Properties(d.kind, j, d.credibility)
  {
    var m, ends := q.MatchesAt(p)[k], q.EndsUpTo(p, n - 1);
    var j, last := q.EndOf(p, m), q.MatchesAt(p)[n - 1];
    assert q.Step(p, m);
    if k < n - 1 {
      StepIsOnEdge(q, p, n - 1, k, d);
      if last.length > 0 && q.EndOf(p, last) == j {
        InsertKeeps(ends[j], q.prism.Syllables(last.value), j, d.syllable);
      }
    } else {
      LastStepIsOnEdge(q, p, k, d);
    }
  }

  lemma LastStepIsOnEdge(q: Query, p: nat, k: nat, d: Descriptor)
    requires Regular(q.prism, q.delimiters) && p < |q.input| && k < |q.MatchesAt(p)|
    requires var m := q.MatchesAt(p)[k]; m.length > 0 && d in q.prism.Syllables(m.value)
    ensures var j := q.EndOf(p, q.MatchesAt(p)[k]);
      var sp := InsertAll(SpellingsOf(q.EndsUpTo(p, k), j), q.prism.Syllables(q.MatchesAt(p)[k].value), j);
      d.syllable in sp && sp[d.syllable] == PropertiesOf(d, j)
  {
    var m := q.MatchesAt(p)[k];
    var j, ds := q.EndOf(p, m), q.prism.Syllables(m.value);
    var sp := SpellingsOf(q.EndsUpTo(p, k), j);
    assert q.Step(p, m);
    hide Regular, Query.Step, Query.EndsUpTo;
    InsertHas(sp, ds, j, d);
    InsertedFrom(sp, ds, j, d.syllable);
    if d.syllable in sp {
      AlreadyOnEdge(q, p, k, j, m, d);
    } else {
      var e :| e in ds && e.syllable == d.syllable && InsertAll(sp, ds, j)[d.syllable] == PropertiesOf(e, j);
      StepsAgree(q, p, m, m, d, e);
    }
  }

  lemma AlreadyOnEdge(q: Query, p: nat, k: nat, j: nat, m: Match, d: Descriptor)
    requires Regular(q.prism, q.delimiters) && p < |q.input| && k <= |q.MatchesAt(p)|
    requires q.Step(p, m) && q.EndOf(p, m) == j && d in q.prism.Syllables(m.value)
    requires d.syllable in SpellingsOf(q.EndsUpTo(p, k), j)
    ensures SpellingsOf(q.EndsUpTo(p, k), j)[d.syllable] == PropertiesOf(d, j)
  {
    hide Regular, Query.EndsUpTo;
    EdgeFromStep(q, p, k, j);
    var sp := SpellingsOf(q.EndsUpTo(p, k), j);
    var n, e :| SpelledBy(q, p, j, n, e) && e.syllable == d.syllable && sp[d.syllable] == PropertiesOf(e, j);
    hide Query.Step, Query.EndOf;
    StepsAgree(q, p, m, n, d, e);
  }

  /** Every syllable of every step is on the edge to the end of that step, with its own properties. */
  ghost predicate Lossless(q: Query) {
    forall p, m, d :: q.Step(p, m) && d in q.prism.Syllables(m.value) ==> Kept(q, p, m, d)
  }

  ghost predicate Kept(q: Query, p: nat, m: Match, d: Descriptor)
    requires q.Step(p, m)
  {
    var j := q.EndOf(p, m);
    j in q.Ends(p) && d.syllable in q.Ends(p)[j]
    && q.Ends(p)[j][d.syllable] == Properties(d.kind, j, d.credibility)
  }

  /** The graphs of all inputs keep all syllables if and only if the prism is regular. */
  lemma RegularExactly(img: Image, delimiters: string)
    ensures Regular(img, delimiters) <==> forall input :: Lossless(Query(input, delimiters, img))
  {
    if Regular(img, delimiters) {
      forall input
        ensures Lossless(Query(input, delimiters, img))
      {
        RegularIsLossless(Query(input, delimiters, img));
      }
    }
    if forall input :: Lossless(Query(input, delimiters, img)) {
      hide Lossless;
      forall a, b, d, e | a in img.keys && b in img.keys && Variant(a, b, delimiters) && d in img.Syllables(img.Rank(a))
          && e in img.Syllables(img.Rank(b)) && d.syllable == e.syllable
        ensures d == e
      {
        assert Lossless(Query(b, delimiters, img));
        LosslessAgrees(img, delimiters, a, b, d, e);
      }
    }
  }

  lemma RegularIsLossless(q: Query)
    requires Regular(q.prism, q.delimiters)
    ensures Lossless(q)
  {
    hide Regular, Query.Step, Query.Ends, Query.EndOf;
    forall p, m, d | q.Step(p, m) && d in q.prism.Syllables(m.value)
      ensures Kept(q, p, m, d)
    {
      SyllableOnEdge(q, p, m, d);
    }
  }

  /** On the longer of two such keys as input, one edge would have to keep both descriptors. */
  lemma LosslessAgrees(img: Image, delimiters: string, a: string, b: string, d: Descriptor, e: Descriptor)
    requires a in img.keys && b in img.keys && Variant(a, b, delimiters) && Lossless(Query(b, delimiters, img))
    requires d in img.Syllables(img.Rank(a)) && e in img.Syllables(img.Rank(b)) && d.syllable == e.syllable
    ensures d == e
  {
    var q := Query(b, delimiters, img);
    var m, n := Match(img.Rank(a), |a|), Match(img.Rank(b), |b|);
    KeyIsStep(q, a);
    KeyIsStep(q, b);
    hide Query.Step, Query.Ends, Query.Skip;
    assert Kept(q, 0, m, d) && Kept(q, 0, n, e);
  }

  lemma KeyIsStep(q: Query, a: string)
    requires a in q.prism.keys && a != "" && a <= q.input
    ensures q.Step(0, Match(q.prism.Rank(a), |a|))
  {
    assert q.input[0..|a|] == a;
    StepExactly(q, 0, Match(q.prism.Rank(a), |a|));
  }

  // ---------- the explored graph ----------

  lemma ReachableStep(q: Query, p: nat, m: Match)
    requires q.Reachable(p) && q.Step(p, m)
    ensures q.Reachable(q.EndOf(p, m))
  {
    var r :| q.Walk(0, r, p);
    WalkExtend(q, p, q.Cost(r), m);
    var r' :| q.Walk(0, r', q.EndOf(p, m));
  }

  lemma EdgeIsStep(q: Query, x: Found, p: nat, j: nat) returns (m: Match)
    requires EdgesOf(q, x.vertices, x.edges) && p in x.edges && j in x.edges[p]
    ensures q.Step(p, m) && q.EndOf(p, m) == j && p < j && p in x.vertices && x.edges[p] == q.Ends(p)
  {
    EdgeFromStep(q, p, |q.MatchesAt(p)|, j);
    hide Spelled, Query.EndsUpTo;
    m :| q.Step(p, m) && q.EndOf(p, m) == j;
  }

  lemma ExploredIsForward(q: Query, x: Found)
    requires Explored(q, x)
    ensures Forward(x)
  {
    hide EdgesOf, Settled, Query.Step, Query.EndOf, Query.Ends, Query.Reachable;
    forall p, j {:trigger j in x.edges[p]} | p in x.edges && j in x.edges[p]
      ensures p < j <= x.farthest && j in x.vertices
    {
      var m := EdgeIsStep(q, x, p, j);
      ReachableStep(q, p, m);
    }
    assert forall p :: p in x.edges ==> p in x.vertices by { EdgesLeaveVertices(q, x); }
  }

  lemma EdgesLeaveVertices(q: Query, x: Found)
    requires EdgesOf(q, x.vertices, x.edges)
    ensures forall p :: p in x.edges ==> p in x.vertices && p < |q.input| && x.edges[p] == q.Ends(p)
  {
  }

  /** An allowed link always comes from a step whose best type is allowed. */
  lemma LinkFromStep(q: Query, x: Found, p: nat, j: nat) returns (m: Match)
    requires Explored(q, x) && Link(x, p, j)
    ensures q.Step(p, m) && q.EndOf(p, m) == j && q.KindOf(m) <= Last(x)
  {
    hide EdgesOf, Settled, Query.Reachable, Spelled, BestKind, Query.MatchesAt, Query.EndOf;
    var s := SomeAllowed(x.edges[p][j], Last(x));
    var d;
    m, d := SpellingIsSyllable(q, x, p, j, s);
    BestIsLeast(q.prism.Syllables(m.value), d);
  }

  lemma SomeAllowed(sp: SpellingMap, last: SpellingType) returns (s: int)
    requires Allowed(sp, last) != map[]
    ensures s in sp && sp[s].kind <= last
  {
    assert (forall s :: s in sp ==> sp[s].kind > last) ==> Allowed(sp, last) == map[];
    s :| s in sp && sp[s].kind <= last;
  }

  lemma SpellingIsSyllable(q: Query, x: Found, p: nat, j: nat, s: int) returns (m: Match, d: Descriptor)
    requires EdgesOf(q, x.vertices, x.edges) && p in x.edges && j in x.edges[p] && s in x.edges[p][j]
    ensures SpelledBy(q, p, j, m, d) && d.syllable == s && x.edges[p][j][s] == PropertiesOf(d, j)
  {
    hide SpelledBy, Query.MatchesAt;
    EdgesLeaveVertices(q, x);
    hide EdgesOf;
    EdgeFromStep(q, p, |q.MatchesAt(p)|, j);
    m, d :| SpelledBy(q, p, j, m, d) && d.syllable == s && x.edges[p][j][s] == PropertiesOf(d, j);
  }

  lemma SyllableOnEdge(q: Query, p: nat, m: Match, d: Descriptor)
    requires Regular(q.prism, q.delimiters) && q.Step(p, m) && d in q.prism.Syllables(m.value)
    ensures var j := q.EndOf(p, m);
      j in q.Ends(p) && d.syllable in q.Ends(p)[j] && q.Ends(p)[j][d.syllable] == PropertiesOf(d, j)
  {
    hide Regular, Query.EndsUpTo, Query.EndOf;
    var k :| 0 <= k < |q.MatchesAt(p)| && q.MatchesAt(p)[k] == m;
    StepIsOnEdge(q, p, |q.MatchesAt(p)|, k, d);
  }

  /** In a regular prism a step whose best type is allowed gives an allowed link. */
  lemma StepGivesLink(q: Query, x: Found, p: nat, m: Match)
    requires Regular(q.prism, q.delimiters) && EdgesOf(q, x.vertices, x.edges) && p in x.vertices
    requires q.Step(p, m) && q.KindOf(m) <= Last(x)
    ensures Link(x, p, q.EndOf(p, m))
  {
    assert p in x.edges && x.edges[p] == q.Ends(p);
    hide Regular, EdgesOf, BestKind, Query.Ends, Query.EndOf, Query.Step;
    var d := BestIsAttained(q.prism.Syllables(m.value));
    SyllableOnEdge(q, p, m, d);
    assert d.syllable in Allowed(x.edges[p][q.EndOf(p, m)], Last(x));
  }

  // ---------- paths ----------

  /** The positions after the first one of a path. */
  datatype Trail = Stop | Hop(next: nat, rest: Trail)

  ghost predicate Path(x: Found, from: nat, t: Trail, to: nat)
    decreases t
  {
    match t
    case Stop => from == to
    case Hop(j, rest) => Link(x, from, j) && Path(x, j, rest, to)
  }

  ghost predicate Leads(x: Found, from: nat, to: nat) {
    exists t :: Path(x, from, t, to)
  }

  /** `p` lies on an allowed path from the start to the farthest position. */
  ghost predicate OnPath(x: Found, p: nat) {
    Leads(x, 0, p) && Leads(x, p, x.farthest)
  }

  lemma {:induction false} GoodLeads(x: Found, p: nat)
    requires Forward(x) && Good(x, p)
    ensures Leads(x, p, x.farthest)
    decreases if p <= x.farthest then x.farthest - p else 0
  {
    if p == x.farthest {
      assert Path(x, p, Stop, p);
    } else {
      var j :| p < j <= x.farthest && Link(x, p, j) && Good(x, j);
      GoodLeads(x, j);
      var t :| Path(x, j, t, x.farthest);
      assert Path(x, p, Hop(j, t), x.farthest);
    }
  }

  /** A route that is no worse than the farthest vertex is an allowed path. */
  lemma {:induction false} RouteIsPath(q: Query, x: Found, from: nat, r: Route, to: nat)
    requires Regular(q.prism, q.delimiters) && Explored(q, x) && Forward(x)
    requires from in x.vertices && q.Walk(from, r, to) && q.Cost(r) <= Last(x)
    ensures Leads(x, from, to)
    decreases r
  {
    if r.Arrived? {
      assert Path(x, from, Stop, to);
    } else {
      var j := q.EndOf(from, r.first);
      hide Regular, Query.Skip, Link, Query.MatchesAt, EdgesOf, Settled, Query.KindOf;
      StepGivesLink(q, x, from, r.first);
      ReachableStep(q, from, r.first);
      RouteIsPath(q, x, j, r.rest, to);
      var t :| Path(x, j, t, to);
      assert Path(x, from, Hop(j, t), to);
    }
  }

  /** There is a route to `p` that is no worse than the farthest vertex. */
  ghost predicate Cheap(q: Query, x: Found, p: nat) {
    exists r :: q.Walk(0, r, p) && q.Cost(r) <= Last(x)
  }

  lemma CheapStep(q: Query, x: Found, p: nat, j: nat)
    requires Explored(q, x) && Forward(x) && Cheap(q, x, p) && Link(x, p, j)
    ensures Cheap(q, x, j)
  {
    hide Explored, Forward, Link, Query.Step, Query.Walk;
    var m := LinkFromStep(q, x, p, j);
    var r :| q.Walk(0, r, p) && q.Cost(r) <= Last(x);
    WalkExtend(q, p, q.Cost(r), m);
    var r' :| q.Walk(0, r', j) && q.Cost(r') == Worse(q.Cost(r), q.KindOf(m));
  }

  lemma {:induction false} CheapAlong(q: Query, x: Found, p: nat, t: Trail, to: nat)
    requires Explored(q, x) && Forward(x) && Cheap(q, x, p) && Path(x, p, t, to)
    ensures Cheap(q, x, to)
    decreases t
  {
    if t.Hop? {
      CheapStep(q, x, p, t.next);
      CheapAlong(q, x, t.next, t.rest, to);
    }
  }

  lemma {:induction false} CheapIsGood(q: Query, x: Found, p: nat, t: Trail)
    requires Explored(q, x) && Forward(x) && Cheap(q, x, p) && Path(x, p, t, x.farthest)
    ensures Good(x, p) && p in x.vertices
    decreases t
  {
    var r :| q.Walk(0, r, p) && q.Cost(r) <= Last(x);
    assert q.Reachable(p) && q.Minimax(p, x.vertices[p]);
    if t.Hop? {
      CheapStep(q, x, p, t.next);
      CheapIsGood(q, x, t.next, t.rest);
    }
  }

  /** Nothing on an allowed path is lost, whatever the prism. */
  lemma PathSurvives(q: Query, x: Found, p: nat)
    requires Explored(q, x) && Forward(x) && OnPath(x, p)
    ensures p in x.vertices && Good(x, p)
  {
    var a, b :| Path(x, 0, a, p) && Path(x, p, b, x.farthest);
    assert q.Walk(0, Arrived, 0) && q.Cost(Arrived) == NORMAL;
    CheapAlong(q, x, 0, a, p);
    CheapIsGood(q, x, p, b);
  }

  /** With a regular prism nothing else survives. */
  lemma SurvivorIsOnPath(q: Query, x: Found, p: nat)
    requires Regular(q.prism, q.delimiters) && Explored(q, x) && Forward(x) && p in x.vertices && Good(x, p)
    ensures OnPath(x, p)
  {
    GoodLeads(x, p);
    assert q.Minimax(p, x.vertices[p]) && x.vertices[p] <= Last(x);
    var r :| q.Walk(0, r, p) && q.Cost(r) == x.vertices[p];
    assert q.Walk(0, Arrived, 0) && q.Reachable(0);
    RouteIsPath(q, x, 0, r, p);
  }

  ghost predicate Has(edges: EdgeMap, p: nat, j: nat, s: int) {
    p in edges && j in edges[p] && s in edges[p][j]
  }

  /** The vertices that survive are those on the allowed paths. */
  lemma VerticesAreUnion(q: Query, x: Found, p: nat)
    requires Explored(q, x)
    ensures OnPath(x, p) ==> p in VerticesFrom(x, 0)
    ensures Regular(q.prism, q.delimiters) && p in VerticesFrom(x, 0) ==> OnPath(x, p)
  {
    ExploredIsForward(q, x);
    if OnPath(x, p) { PathSurvives(q, x, p); }
    if Regular(q.prism, q.delimiters) && p in x.vertices && Good(x, p) { SurvivorIsOnPath(q, x, p); }
  }

  lemma PrunedSpelling(x: Found, p: nat, j: nat, s: int)
    ensures Has(EdgesFrom(x, 0), p, j, s)
      <==> Has(x.edges, p, j, s) && x.edges[p][j][s].kind <= Last(x) && Good(x, p) && Good(x, j)
    ensures Has(EdgesFrom(x, 0), p, j, s) ==> EdgesFrom(x, 0)[p][j][s] == x.edges[p][j][s]
  {
    hide Good;
    if Has(x.edges, p, j, s) && x.edges[p][j][s].kind <= Last(x) {
      assert s in Allowed(x.edges[p][j], Last(x));
    }
  }

  /** The spellings that survive are the allowed ones between positions on the allowed paths, unchanged. */
  lemma EdgesAreUnion(q: Query, x: Found, p: nat, j: nat, s: int)
    requires Explored(q, x) && Regular(q.prism, q.delimiters)
    ensures Has(EdgesFrom(x, 0), p, j, s)
      <==> (Has(x.edges, p, j, s) && x.farthest in x.vertices && x.edges[p][j][s].kind <= x.vertices[x.farthest]
            && OnPath(x, p) && OnPath(x, j))
    ensures Has(EdgesFrom(x, 0), p, j, s) ==> EdgesFrom(x, 0)[p][j][s] == x.edges[p][j][s]
  {
    PrunedSpelling(x, p, j, s);
    VerticesAreUnion(q, x, p);
    VerticesAreUnion(q, x, j);
    ExploredIsForward(q, x);
    assert x.farthest in x.vertices && Last(x) == x.vertices[x.farthest];
    hide OnPath, Explored, Regular, Good, EdgesFrom, MarkedFrom, Last;
  }

  /** An allowed link is an explored edge with a spelling that is no worse than the farthest vertex. */
  lemma LinkExactly(x: Found, p: nat, j: nat)
    requires x.farthest in x.vertices
    ensures Link(x, p, j) <==> exists s :: Has(x.edges, p, j, s) && x.edges[p][j][s].kind <= x.vertices[x.farthest]
  {
    if Link(x, p, j) {
      var s := SomeAllowed(x.edges[p][j], Last(x));
      assert Has(x.edges, p, j, s);
    }
    if s :| Has(x.edges, p, j, s) && x.edges[p][j][s].kind <= x.vertices[x.farthest] {
      assert s in Allowed(x.edges[p][j], Last(x));
    }
  }

  // ---------- inside the pruned graph ----------

  ghost predicate PathIn(edges: EdgeMap, from: nat, t: Trail, to: nat)
    decreases t
  {
    match t
    case Stop => from == to
    case Hop(j, rest) => from in edges && j in edges[from] && edges[from][j] != map[] && PathIn(edges, j, rest, to)
  }

  /** `p` is reached from the start and reaches `farthest` over these edges. */
  ghost predicate Connected(edges: EdgeMap, p: nat, farthest: nat) {
    exists a, b :: PathIn(edges, 0, a, p) && PathIn(edges, p, b, farthest)
  }

  ghost function JoinTrails(a: Trail, b: Trail): Trail {
    match a
    case Stop => b
    case Hop(j, rest) => Hop(j, JoinTrails(rest, b))
  }

  lemma {:induction false} PathsJoin(x: Found, from: nat, a: Trail, mid: nat, b: Trail, to: nat)
    requires Path(x, from, a, mid) && Path(x, mid, b, to)
    ensures Path(x, from, JoinTrails(a, b), to)
    decreases a
  {
    hide Link;
    if a.Hop? {
      PathsJoin(x, a.next, a.rest, mid, b, to);
    }
  }

  lemma LinkSurvives(q: Query, x: Found, p: nat, j: nat)
    requires Explored(q, x) && Forward(x) && OnPath(x, p) && OnPath(x, j) && Link(x, p, j)
    ensures p in EdgesFrom(x, 0) && j in EdgesFrom(x, 0)[p] && EdgesFrom(x, 0)[p][j] != map[]
  {
    PathSurvives(q, x, p);
    PathSurvives(q, x, j);
    hide OnPath, Explored, Good, Query.Step;
  }

  /** A path between positions on allowed paths is still there after pruning. */
  lemma {:induction false} PathStays(q: Query, x: Found, from: nat, t: Trail, to: nat)
    requires Explored(q, x) && Forward(x) && Leads(x, 0, from) && Path(x, from, t, to) && Leads(x, to, x.farthest)
    ensures PathIn(EdgesFrom(x, 0), from, t, to)
    decreases t
  {
    hide Explored, Forward, Link, EdgesFrom;
    if t.Hop? {
      var j := t.next;
      var a, b :| Path(x, 0, a, from) && Path(x, to, b, x.farthest);
      PathsJoin(x, from, t, to, b, x.farthest);
      PathsJoin(x, j, t.rest, to, b, x.farthest);
      assert Path(x, from, Hop(j, Stop), j) by {
        assert Path(x, j, Stop, j);
      }
      PathsJoin(x, 0, a, from, Hop(j, Stop), j);
      LinkSurvives(q, x, from, j);
      PathStays(q, x, j, t.rest, to);
    }
  }

  /** Pruning adds no path. */
  lemma {:induction false} PathWasThere(x: Found, from: nat, t: Trail, to: nat)
    requires PathIn(EdgesFrom(x, 0), from, t, to)
    ensures Path(x, from, t, to)
    decreases t
  {
    if t.Hop? {
      hide Good;
      PathWasThere(x, t.next, t.rest, to);
    }
  }

  /** The allowed paths are exactly the paths of the pruned graph. */
  lemma ConnectedExactly(q: Query, x: Found, p: nat)
    requires Explored(q, x)
    ensures Connected(EdgesFrom(x, 0), p, x.farthest) <==> OnPath(x, p)
  {
    ExploredIsForward(q, x);
    hide Explored, Forward, EdgesFrom, Path, PathIn;
    if OnPath(x, p) {
      var a, b :| Path(x, 0, a, p) && Path(x, p, b, x.farthest);
      ArrivesAt(x, 0);
      ArrivesAt(x, x.farthest);
      PathStays(q, x, 0, a, p);
      PathStays(q, x, p, b, x.farthest);
    }
    if Connected(EdgesFrom(x, 0), p, x.farthest) {
      var a, b :| PathIn(EdgesFrom(x, 0), 0, a, p) && PathIn(EdgesFrom(x, 0), p, b, x.farthest);
      PathWasThere(x, 0, a, p);
      PathWasThere(x, p, b, x.farthest);
    }
  }

  lemma ArrivesAt(x: Found, p: nat)
    ensures Leads(x, p, p)
  {
    assert Path(x, p, Stop, p);
  }

  /** With a regular prism every vertex that survives is reached from the start, and reaches the farthest position,
      inside the pruned graph. */
  lemma SurvivorsAreConnected(q: Query, x: Found, p: nat)
    requires Explored(q, x) && Regular(q.prism, q.delimiters) && p in VerticesFrom(x, 0)
    ensures Connected(EdgesFrom(x, 0), p, x.farthest)
  {
    hide Explored, Regular, OnPath, Connected, VerticesFrom;
    VerticesAreUnion(q, x, p);
    ConnectedExactly(q, x, p);
  }

  // ---------- why the prism has to be regular ----------

  /** Two keys that differ by a delimiter: an abbreviation of a syllable, and the syllable itself. */
  const CLASHING := Query("a'", "'", Image(["a", "a'"],
    Some([[Descriptor(0, ABBREVIATION, 0.5)], [Descriptor(0, NORMAL, 1.0)]])))

  /** Both keys end in the same place, the abbreviation is inserted first, and the syllable is lost:
      the farthest vertex survives alone, although it was reached by a normal spelling. */
  lemma RegularIsNeeded(x: Found)
    requires Explored(CLASHING, x)
    ensures !Regular(CLASHING.prism, CLASHING.delimiters)
    ensures x.farthest == 2 && 2 in VerticesFrom(x, 0) && 0 !in VerticesFrom(x, 0) && !OnPath(x, 2)
  {
    hide Explored, Regular, Query.Ends, Good, OnPath;
    ClashingIsIrregular();
    ClashingFarthest(x);
    ClashingEnds();
    var sp: SpellingMap := map[0 := Properties(ABBREVIATION, 2, 0.5)];
    assert Allowed(sp, NORMAL) == map[];
    NoLink(x, sp);
  }

  lemma ClashingIsIrregular()
    ensures !Regular(CLASHING.prism, CLASHING.delimiters)
  {
    var img := CLASHING.prism;
    var a, b := "a", "a'";
    assert img.keys[0] == a && img.keys[1] == b && a in img.keys && b in img.keys;
    assert Variant(a, b, CLASHING.delimiters) by {
      assert b[1] == CLASHING.delimiters[0];
    }
    assert img.Rank(a) == 0 && img.Rank(b) == 1;
    var d, e := Descriptor(0, ABBREVIATION, 0.5), Descriptor(0, NORMAL, 1.0);
    assert img.Syllables(0) == [d] && img.Syllables(1) == [e];
    assert d in [d] && e in [e];
  }

  lemma NoLink(x: Found, sp: SpellingMap)
    requires 0 in x.edges && x.edges[0] == map[2 := sp] && x.farthest == 2 && Allowed(sp, Last(x)) == map[]
    ensures forall j: nat :: !Link(x, 0, j)
    ensures !Good(x, 0) && Good(x, 2) && !OnPath(x, 2)
  {
  }

  lemma ClashingFarthest(x: Found)
    requires Explored(CLASHING, x)
    ensures x.farthest == 2 && 2 in x.vertices && x.vertices[2] == NORMAL
    ensures 0 in x.edges && x.edges[0] == CLASHING.Ends(0)
  {
    var q := CLASHING;
    ClashingEnds();
    var whole := Via(Match(1, 2), Arrived);
    assert q.Walk(2, Arrived, 2) && q.Walk(0, whole, 2);
    assert q.Cost(Arrived) == NORMAL && q.Cost(whole) == NORMAL;
    assert q.Walk(0, Arrived, 0);
    assert q.Reachable(0) && q.Reachable(2) && q.Reachable(x.farthest);
    assert q.Minimax(2, x.vertices[2]);
    hide Query.MatchesAt, Query.EndOf, Query.Cost, Query.KindOf;
    var r :| q.Walk(0, r, x.farthest);
    WalkForward(q, 0, r, x.farthest);
  }

  lemma ClashingEnds()
    ensures CLASHING.MatchesAt(0) == [Match(0, 1), Match(1, 2)]
    ensures CLASHING.EndOf(0, Match(0, 1)) == 2 && CLASHING.EndOf(0, Match(1, 2)) == 2
    ensures CLASHING.KindOf(Match(1, 2)) == NORMAL
    ensures CLASHING.Ends(0) == map[2 := map[0 := Properties(ABBREVIATION, 2, 0.5)]]
  {
    var q, img := CLASHING, CLASHING.prism;
    var s := q.input;
    assert q.input[0..] == s && s[..0] == "" && s[..1] == "a" && s[..2] == "a'";
    assert img.MatchesUpTo(s, 0) == [];
    assert img.MatchesUpTo(s, 1) == [Match(0, 1)];
    assert img.MatchesUpTo(s, 2) == [Match(0, 1), Match(1, 2)];
    assert img.Syllables(0) == [Descriptor(0, ABBREVIATION, 0.5)];
    assert img.Syllables(1) == [Descriptor(0, NORMAL, 1.0)];
    var d, e := Descriptor(0, ABBREVIATION, 0.5), Descriptor(0, NORMAL, 1.0);
    assert [d][..0] == [] && [e][..0] == [];
    assert InsertAll(map[], [d], 2) == map[0 := Properties(ABBREVIATION, 2, 0.5)];
    assert InsertAll(map[0 := Properties(ABBREVIATION, 2, 0.5)], [e], 2) == map[0 := Properties(ABBREVIATION, 2, 0.5)];
    assert q.EndsUpTo(0, 0) == map[];
    assert q.EndsUpTo(0, 1) == map[2 := map[0 := Properties(ABBREVIATION, 2, 0.5)]];
    assert q.EndsUpTo(0, 2) == map[2 := map[0 := Properties(ABBREVIATION, 2, 0.5)]];
  }
}
