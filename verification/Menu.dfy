/** The menu: candidates are recruited from the translations on demand, page by page. */
module Menus {
  import opened Spellings
  import opened Segmentations

  type Candidates = seq<Candidate>

  /** A translation, as the candidates that it still has to offer: it is exhausted when there are none. */
  type Translation = Candidates

  // ---------- the order of candidates ----------

  /** Negative or zero if `ours` should provide the next candidate, positive if it should leave that to `theirs`. */
  function Compare(ours: Translation, theirs: Option<Translation>): int {
    if theirs.None? || theirs.value == [] then -1
    else if ours == [] then 1
    else
      var a, b := ours[0], theirs.value[0];
      if a.start != b.start then a.start - b.start else b.end - a.end
  }

  /** The one nearer to the beginning comes first, then the longer one. */
  predicate NotAfter(a: Candidate, b: Candidate) {
    a.start < b.start || (a.start == b.start && a.end >= b.end)
  }

  ghost predicate InOrder(cs: Candidates) {
    forall i, j :: 0 <= i < j < |cs| ==> NotAfter(cs[i], cs[j])
  }

  // ---------- recruiting ----------

  /** What a filter makes of the next candidates, given those that have been recruited. */
  type Filter = Option<(Candidates, Candidates) -> Candidates>

  datatype Stock = Stock(translations: seq<Translation>, candidates: Candidates)

  function Following(ts: seq<Translation>, k: nat): Option<Translation> {
    if k + 1 < |ts| then Some(ts[k + 1]) else None
  }

  /** The first translation that does not leave the turn to the one after it. */
  function Winner(ts: seq<Translation>, k: nat): (w: nat)
    requires k < |ts|
    ensures k <= w < |ts| && Compare(ts[w], Following(ts, w)) <= 0
    ensures forall j :: k <= j < w ==> Compare(ts[j], Following(ts, j)) > 0
    decreases |ts| - k
  {
    if Compare(ts[k], Following(ts, k)) <= 0 then k else Winner(ts, k + 1)
  }

  function Filtered(filter: Filter, recruited: Candidates, next: Candidates): Candidates {
    if filter.Some? then filter.value(recruited, next) else next
  }

  function Without(ts: seq<Translation>, k: nat): seq<Translation>
    requires k < |ts|
  {
    ts[..k] + ts[k + 1..]
  }

  /** The translation has moved on, and is gone when it is exhausted. */
  function MovedOn(ts: seq<Translation>, k: nat): seq<Translation>
    requires k < |ts| && ts[k] != []
  {
    if |ts[k]| == 1 then Without(ts, k) else ts[k := ts[k][1..]]
  }

  /** One turn: the winner offers a candidate, or is dropped if it has none. */
  function Turn(filter: Filter, s: Stock): Stock
    requires s.translations != []
  {
    var k := Winner(s.translations, 0);
    var t := s.translations[k];
    if t == [] then s.(translations := Without(s.translations, k))
    else Stock(MovedOn(s.translations, k), s.candidates + Filtered(filter, s.candidates, [t[0]]))
  }

  /** A translation takes its turn before the next one just when that has nothing left, or it has something itself that
      starts earlier, or in the same place and ends no earlier. */
  lemma CompareExactly(ours: Translation, theirs: Translation)
    ensures Compare(ours, None) <= 0
    ensures Compare(ours, Some(theirs)) <= 0
       <==> (theirs == [] || (ours != [] && (ours[0].start < theirs[0].start
                                           || (ours[0].start == theirs[0].start && ours[0].end >= theirs[0].end))))
  {
  }

  /** One turn: an exhausted winner is dropped; any other offers its first candidate, to the filter if there is one, and
      what comes of that is recruited; and it is dropped if that was all it had. */
  lemma TurnExactly(filter: Filter, s: Stock)
    requires s.translations != []
    ensures var k, r := Winner(s.translations, 0), Turn(filter, s);
            var t := s.translations[k];
      && (forall j :: 0 <= j < k ==> r.translations[j] == s.translations[j])
      && (|t| <= 1 ==> |r.translations| == |s.translations| - 1
                       && forall j :: k <= j < |r.translations| ==> r.translations[j] == s.translations[j + 1])
      && (|t| > 1 ==> |r.translations| == |s.translations| && r.translations[k] == t[1..]
                      && forall j :: k < j < |r.translations| ==> r.translations[j] == s.translations[j])
      && r.candidates == s.candidates + (if t == [] then [] else if filter.None? then [t[0]]
                                         else filter.value(s.candidates, [t[0]]))
  {
    hide Winner;
  }

  /** How many turns there can be. */
  function Left(ts: seq<Translation>): nat {
    if ts == [] then 0 else Left(ts[..|ts| - 1]) + |ts[|ts| - 1]| + 1
  }

  lemma {:induction false} LeftWithout(ts: seq<Translation>, k: nat)
    requires k < |ts|
    ensures Left(Without(ts, k)) == Left(ts) - |ts[k]| - 1
  {
    var front := ts[..|ts| - 1];
    if k < |ts| - 1 {
      LeftWithout(front, k);
      assert Without(ts, k)[..|ts| - 2] == Without(front, k);
    } else {
      assert Without(ts, k) == front;
    }
  }

  lemma {:induction false} LeftUpdated(ts: seq<Translation>, k: nat, t: Translation)
    requires k < |ts|
    ensures Left(ts[k := t]) == Left(ts) - |ts[k]| + |t|
  {
    var front := ts[..|ts| - 1];
    if k < |ts| - 1 {
      LeftUpdated(front, k, t);
      assert ts[k := t][..|ts| - 1] == front[k := t];
    } else {
      assert ts[k := t][..|ts| - 1] == front;
    }
  }

  lemma TurnUsesUp(filter: Filter, s: Stock)
    requires s.translations != []
    ensures Left(Turn(filter, s).translations) < Left(s.translations)
  {
    hide Winner, Left;
    var k := Winner(s.translations, 0);
    LeftWithout(s.translations, k);
    if s.translations[k] != [] {
      LeftUpdated(s.translations, k, s.translations[k][1..]);
    }
  }

  /** Candidates are recruited until there are `n`, or no translation is left. */
  function Prepared(filter: Filter, s: Stock, n: nat): Stock
    decreases Left(s.translations)
  {
    if |s.candidates| >= n || s.translations == [] then s
    else
      TurnUsesUp(filter, s);
      Prepared(filter, Turn(filter, s), n)
  }

  /** Everything that can be recruited. */
  function Drained(filter: Filter, s: Stock): Candidates
    decreases Left(s.translations)
  {
    if s.translations == [] then s.candidates
    else
      TurnUsesUp(filter, s);
      Drained(filter, Turn(filter, s))
  }

  // ---------- recruiting on demand agrees with recruiting everything ----------

  /** Preparing in two goes is the same as preparing at once. */
  lemma {:induction false} PrepareTwice(filter: Filter, s: Stock, a: nat, b: nat)
    ensures Prepared(filter, Prepared(filter, s, a), b) == Prepared(filter, s, if a < b then b else a)
    decreases Left(s.translations)
  {
    if !(|s.candidates| >= a || s.translations == []) {
      TurnUsesUp(filter, s);
      PrepareTwice(filter, Turn(filter, s), a, b);
    }
  }

  /** What has been recruited stays, and what is prepared is the first part of what can be recruited. */
  lemma {:induction false} PreparedIsFirst(filter: Filter, s: Stock, n: nat)
    ensures s.candidates <= Prepared(filter, s, n).candidates <= Drained(filter, s)
    ensures Drained(filter, Prepared(filter, s, n)) == Drained(filter, s)
    ensures |Prepared(filter, s, n).candidates| >= n || Prepared(filter, s, n).translations == []
    decreases Left(s.translations)
  {
    if |s.candidates| >= n || s.translations == [] {
      DrainedKeeps(filter, s);
    } else {
      TurnUsesUp(filter, s);
      PreparedIsFirst(filter, Turn(filter, s), n);
    }
  }

  lemma {:induction false} DrainedKeeps(filter: Filter, s: Stock)
    ensures s.candidates <= Drained(filter, s)
    decreases Left(s.translations)
  {
    if s.translations != [] {
      TurnUsesUp(filter, s);
      DrainedKeeps(filter, Turn(filter, s));
    }
  }

  // ---------- without a filter ----------

  function Remaining(ts: seq<Translation>): multiset<Candidate> {
    if ts == [] then multiset{} else Remaining(ts[..|ts| - 1]) + multiset(ts[|ts| - 1])
  }

  lemma RemainingPush(ts: seq<Translation>, t: Translation)
    ensures Remaining(ts + [t]) == Remaining(ts) + multiset(t)
  {
    assert (ts + [t])[..|ts|] == ts;
  }

  lemma {:induction false} RemainingWithout(ts: seq<Translation>, k: nat)
    requires k < |ts|
    ensures Remaining(ts) == Remaining(Without(ts, k)) + multiset(ts[k])
  {
    hide Remaining;
    var front, last := ts[..|ts| - 1], ts[|ts| - 1];
    assert ts == front + [last];
    RemainingPush(front, last);
    if k < |ts| - 1 {
      RemainingWithout(front, k);
      assert Without(ts, k) == Without(front, k) + [last];
      RemainingPush(Without(front, k), last);
    } else {
      assert Without(ts, k) == front;
    }
  }

  lemma {:induction false} RemainingUpdated(ts: seq<Translation>, k: nat, t: Translation)
    requires k < |ts|
    ensures Remaining(ts[k := t]) == Remaining(Without(ts, k)) + multiset(t)
  {
    hide Remaining;
    var front, last := ts[..|ts| - 1], ts[|ts| - 1];
    if k < |ts| - 1 {
      RemainingUpdated(front, k, t);
      assert Without(ts, k) == Without(front, k) + [last] && ts[k := t] == front[k := t] + [last];
      RemainingPush(Without(front, k), last);
      RemainingPush(front[k := t], last);
    } else {
      assert Without(ts, k) == front && ts[k := t] == front + [t];
      RemainingPush(front, t);
    }
  }

  lemma TurnConserves(s: Stock)
    requires s.translations != []
    ensures var r := Turn(None, s);
            multiset(r.candidates) + Remaining(r.translations) == multiset(s.candidates) + Remaining(s.translations)
  {
    hide Winner, Remaining, Without;
    var k := Winner(s.translations, 0);
    var t := s.translations[k];
    RemainingWithout(s.translations, k);
    if t != [] {
      assert t == [t[0]] + t[1..];
      assert multiset(t) == multiset{t[0]} + multiset(t[1..]);
      RemainingUpdated(s.translations, k, t[1..]);
    }
  }

  /** Every candidate is recruited exactly once. */
  lemma {:induction false} DrainedConserves(s: Stock)
    ensures multiset(Drained(None, s)) == multiset(s.candidates) + Remaining(s.translations)
    decreases Left(s.translations)
  {
    if s.translations != [] {
      hide Turn, Remaining;
      TurnUsesUp(None, s);
      TurnConserves(s);
      DrainedConserves(Turn(None, s));
    }
  }

  /** No more is recruited than asked for. */
  lemma {:induction false} PreparedIsLazy(s: Stock, n: nat)
    ensures |Prepared(None, s, n).candidates| <= if n < |s.candidates| then |s.candidates| else n
    decreases Left(s.translations)
  {
    if !(|s.candidates| >= n || s.translations == []) {
      TurnUsesUp(None, s);
      PreparedIsLazy(Turn(None, s), n);
    }
  }

  ghost predicate NoneExhausted(ts: seq<Translation>) {
    forall k :: 0 <= k < |ts| ==> ts[k] != []
  }

  lemma {:induction false} PreparedKeepsNoneExhausted(filter: Filter, s: Stock, n: nat)
    requires NoneExhausted(s.translations)
    ensures NoneExhausted(Prepared(filter, s, n).translations)
    decreases Left(s.translations)
  {
    if !(|s.candidates| >= n || s.translations == []) {
      TurnUsesUp(filter, s);
      PreparedKeepsNoneExhausted(filter, Turn(filter, s), n);
    }
  }

  // ---------- two sorted translations ----------

  /** Everything recruited comes before everything that is still to come. */
  ghost predicate Merging(s: Stock) {
    && |s.translations| <= 2 && InOrder(s.candidates)
    && forall k :: 0 <= k < |s.translations| ==> Continues(s.candidates, s.translations[k])
  }

  ghost predicate Continues(cs: Candidates, t: Translation) {
    InOrder(t) && forall i :: 0 <= i < |cs| && t != [] ==> NotAfter(cs[i], t[0])
  }

  lemma InOrderPush(cs: Candidates, t: Translation, u: Translation)
    requires InOrder(cs) && Continues(cs, t) && t != []
    ensures InOrder(cs + [t[0]]) && Continues(cs + [t[0]], t[1..])
    ensures Continues(cs, u) && (u == [] || NotAfter(t[0], u[0])) ==> Continues(cs + [t[0]], u)
  {
  }

  lemma TurnMerges(s: Stock)
    requires Merging(s) && s.translations != []
    ensures Merging(Turn(None, s))
  {
    var ts := s.translations;
    var k := Winner(ts, 0);
    assert Continues(s.candidates, ts[k]);
    if ts[k] != [] {
      InOrderPush(s.candidates, ts[k], if |ts| == 2 then ts[1 - k] else []);
    }
  }

  /** Two translations in order are merged into one list in order. */
  lemma {:induction false} DrainedInOrder(s: Stock)
    requires Merging(s)
    ensures InOrder(Drained(None, s))
    decreases Left(s.translations)
  {
    if s.translations != [] {
      hide Turn, Merging, InOrder;
      TurnUsesUp(None, s);
      TurnMerges(s);
      DrainedInOrder(Turn(None, s));
    } else {
      assert InOrder(s.candidates);
    }
  }

  lemma TwoInOrder(a: Translation, b: Translation)
    requires InOrder(a) && InOrder(b)
    ensures InOrder(Drained(None, Stock([a, b], [])))
    ensures multiset(Drained(None, Stock([a, b], []))) == multiset(a) + multiset(b)
  {
    hide Drained, Remaining;
    var s := Stock([a, b], []);
    assert Merging(s) by {
      assert Continues([], a) && Continues([], b);
    }
    hide InOrder, Merging;
    DrainedInOrder(s);
    DrainedConserves(s);
    RemainingOfTwo(a, b);
  }

  lemma RemainingOfTwo(a: Translation, b: Translation)
    ensures Remaining([a, b]) == multiset(a) + multiset(b)
  {
    RemainingPush([a], b);
    RemainingPush([], a);
    assert [a] + [b] == [a, b] && [] + [a] == [a];
  }

  ghost predicate AllInOrder(ts: seq<Translation>) {
    forall k :: 0 <= k < |ts| ==> InOrder(ts[k])
  }

  /** Since only neighbours are compared, an order among more than two translations is not kept: a given number of
      translations in order is always merged into one list in order just when there are no more than two. */
  lemma MergesExactly(n: nat)
    ensures n <= 2 <==> forall ts | |ts| == n && AllInOrder(ts) :: InOrder(Drained(None, Stock(ts, [])))
  {
    if n <= 2 {
      forall ts | |ts| == n && AllInOrder(ts)
        ensures InOrder(Drained(None, Stock(ts, [])))
      {
        DrainedInOrder(Stock(ts, []));
      }
    } else {
      var early, late := Candidate(0, 1, "", ""), Candidate(1, 2, "", "");
      LastComesLate(n, early, late);
    }
  }

  /** Two late candidates first: the early one behind them has to wait for the first of them. */
  lemma LastComesLate(n: nat, early: Candidate, late: Candidate)
    requires n > 2 && early.start < late.start
    ensures exists ts :: |ts| == n && AllInOrder(ts) && !InOrder(Drained(None, Stock(ts, [])))
  {
    hide Drained, Turn;
    var ts := seq(n, i => if i == n - 1 then [early] else [late]);
    assert ts[0] == [late] && ts[1] == [late];
    LateTurn(ts, late);
    assert ts[1..][n - 2] == [early];
    EarlyIsLate(Stock(ts[1..], [late]), n - 2, early, late);
    DrainedTurns(Stock(ts, []));
    assert AllInOrder(ts);
  }

  lemma LateTurn(ts: seq<Translation>, late: Candidate)
    requires |ts| > 2 && ts[0] == ts[1] == [late]
    ensures Turn(None, Stock(ts, [])) == Stock(ts[1..], [late])
  {
    assert Compare(ts[0], Following(ts, 0)) == 0;
  }

  lemma DrainedTurns(s: Stock)
    requires s.translations != []
    ensures Drained(None, s) == Drained(None, Turn(None, s))
  {
    TurnUsesUp(None, s);
  }

  lemma EarlyIsLate(s: Stock, k: nat, early: Candidate, late: Candidate)
    requires s.candidates == [late] && early.start < late.start && k < |s.translations| && s.translations[k] == [early]
    ensures !InOrder(Drained(None, s))
  {
    hide Drained, Remaining;
    var d := Drained(None, s);
    DrainedKeeps(None, s);
    assert d[0] == late;
    DrainedConserves(s);
    RemainingWithout(s.translations, k);
    assert early in multiset(d);
    var i :| 0 <= i < |d| && d[i] == early;
    assert !NotAfter(d[0], d[i]);
  }

  // ---------- pages ----------

  datatype Page = Page(pageSize: nat, pageNo: nat, isLastPage: bool, candidates: Candidates)

  /** The candidates from `start` on, up to `end`, as far as there are any. */
  function Cut(cs: Candidates, start: nat, end: nat): Candidates
    requires start <= end
  {
    if start >= |cs| then [] else if end <= |cs| then cs[start..end] else cs[start..]
  }

  /** A cut has the candidates with the numbers from `start` up to `end`. */
  lemma CutExactly(cs: Candidates, start: nat, end: nat)
    requires start <= end
    ensures |Cut(cs, start, end)| == if start >= |cs| then 0 else if end <= |cs| then end - start else |cs| - start
    ensures forall i :: 0 <= i < |Cut(cs, start, end)| ==> Cut(cs, start, end)[i] == cs[start + i]
  {
  }

  /** Where a page starts. */
  function Start(pageSize: nat, pageNo: nat): nat {
    pageSize * pageNo
  }

  function FirstPages(cs: Candidates, pageSize: nat, n: nat): Candidates {
    if n == 0 then []
    else FirstPages(cs, pageSize, n - 1) + Cut(cs, Start(pageSize, n - 1), Start(pageSize, n - 1) + pageSize)
  }

  lemma EmptyPages(pageSize: nat, pageNo: nat)
    ensures pageSize == 0 ==> Start(pageSize, pageNo) == 0
  {
  }

  lemma CutJoins(cs: Candidates, start: nat, end: nat)
    requires start <= end
    ensures Cut(cs, 0, start) + Cut(cs, start, end) == Cut(cs, 0, end)
  {
    var stop := if end <= |cs| then end else |cs|;
    if start < |cs| {
      assert cs[0..start] + cs[start..stop] == cs[0..stop];
    }
    assert cs[..|cs|] == cs;
  }

  /** The pages, one after the other, give the list from its beginning, without gaps or overlaps. */
  lemma {:induction false} PagesTile(cs: Candidates, pageSize: nat, n: nat)
    ensures FirstPages(cs, pageSize, n) == Cut(cs, 0, Start(pageSize, n))
  {
    if n > 0 {
      PagesTile(cs, pageSize, n - 1);
      assert Start(pageSize, n) == Start(pageSize, n - 1) + pageSize;
      hide Start;
      CutJoins(cs, Start(pageSize, n - 1), Start(pageSize, n));
    }
  }

  /** The filter never drops a candidate without putting another in its place. */
  ghost predicate LetsThrough(filter: Filter) {
    filter.Some? ==> forall recruited, c :: filter.value(recruited, [c]) != []
  }

  /** No translation is left just when everything has been recruited. */
  ghost predicate EndIsKnown(filter: Filter, s: Stock, n: nat) {
    Prepared(filter, s, n).translations == [] <==> |Prepared(filter, s, n).candidates| == |Drained(filter, s)|
  }

  /** With such a filter, or none, the end is known, if no translation was exhausted when it was added. */
  lemma LastPageIsKnown(filter: Filter, s: Stock, n: nat)
    requires LetsThrough(filter) && NoneExhausted(s.translations)
    ensures EndIsKnown(filter, s, n)
  {
    hide Prepared, LetsThrough;
    var after := Prepared(filter, s, n);
    PreparedIsFirst(filter, s, n);
    PreparedKeepsNoneExhausted(filter, s, n);
    if after.translations != [] {
      TurnUsesUp(filter, after);
      TurnRecruits(filter, after);
      DrainedKeeps(filter, Turn(filter, after));
    }
  }

  lemma TurnRecruits(filter: Filter, s: Stock)
    requires LetsThrough(filter) && NoneExhausted(s.translations) && s.translations != []
    ensures |Turn(filter, s).candidates| > |s.candidates|
  {
  }

  /** With any other filter there is a menu of which everything has been recruited, and a translation that offers
      nothing more has not been asked yet. */
  lemma LastPageIsKnownExactly(filter: Filter)
    ensures LetsThrough(filter) <==> forall s: Stock, n: nat | NoneExhausted(s.translations) :: EndIsKnown(filter, s, n)
  {
    if LetsThrough(filter) {
      forall s: Stock, n: nat | NoneExhausted(s.translations)
        ensures EndIsKnown(filter, s, n)
      {
        LastPageIsKnown(filter, s, n);
      }
    } else {
      var recruited, c :| filter.value(recruited, [c]) == [];
      var s := Stock([[c]], recruited);
      TurnUsesUp(filter, s);
      assert Turn(filter, s) == Stock([], recruited);
      assert Drained(filter, s) == recruited == Prepared(filter, s, |recruited|).candidates;
      assert NoneExhausted(s.translations) && !EndIsKnown(filter, s, |recruited|);
    }
  }

  /** So the page that is marked as the last one is precisely that whose end is the end of the list. */
  lemma LastPageIsMarked(filter: Filter, s: Stock, end: nat)
    requires LetsThrough(filter) && NoneExhausted(s.translations)
    ensures Prepared(filter, s, end).translations == [] && end >= |Drained(filter, s)| <==> end >= |Drained(filter, s)|
  {
    hide Prepared, Drained, LetsThrough;
    PreparedIsFirst(filter, s, end);
    LastPageIsKnown(filter, s, end);
  }

  // ---------- the menu, filled in place ----------

  class Menu {
    const filter: Filter
    var translations: seq<Translation>
    var candidates: Candidates

    constructor (filter: Filter)
      ensures this.filter == filter && Now() == Stock([], [])
    {
      this.filter := filter;
      translations, candidates := [], [];
    }

    function Now(): Stock
      reads this
    {
      Stock(translations, candidates)
    }

    method AddTranslation(t: Translation)
      modifies this
      ensures Now() == Stock(old(translations) + [t], old(candidates))
    {
      translations := translations + [t];
    }

    method SelectWinner() returns (k: nat)
      requires translations != []
      ensures k == Winner(translations, 0)
    {
      k := 0;
      while k < |translations|
        invariant k < |translations| && Winner(translations, k) == Winner(translations, 0)
      {
        var next := None;
        if k + 1 < |translations| {
          next := Some(translations[k + 1]);
        }
        if Compare(translations[k], next) <= 0 {
          break;
        }
        k := k + 1;
      }
    }

    /** One candidate is offered by the winner, which is dropped when it is exhausted. */
    method TakeTurn()
      requires translations != []
      modifies this
      ensures Now() == Turn(filter, old(Now()))
    {
      hide Winner;
      var k := SelectWinner();
      if translations[k] == [] {
        translations := translations[..k] + translations[k + 1..];
        return;
      }
      var nextCandidates := [translations[k][0]];
      if filter.Some? {
        nextCandidates := filter.value(candidates, nextCandidates);
      }
      candidates := candidates + nextCandidates;
      translations := translations[k := translations[k][1..]];
      if translations[k] == [] {
        translations := translations[..k] + translations[k + 1..];
      }
    }

    method Prepare(candidateCount: nat) returns (count: nat)
      modifies this
      ensures Now() == Prepared(filter, old(Now()), candidateCount) && count == |candidates|
    {
      hide Turn, Left;
      count := |candidates|;
      if count >= candidateCount {
        return;
      }
      while count < candidateCount && translations != []
        invariant count == |candidates|
        invariant Prepared(filter, Now(), candidateCount) == Prepared(filter, old(Now()), candidateCount)
        decreases Left(translations)
      {
        TurnUsesUp(filter, Now());
        TakeTurn();
        count := |candidates|;
      }
    }

    /** A page of the drained list; it is known to be the last if no translation is left. */
    method CreatePage(pageSize: nat, pageNo: nat) returns (page: Option<Page>)
      modifies this
      ensures Now() == Prepared(filter, old(Now()), Start(pageSize, pageNo) + pageSize)
      ensures Drained(filter, Now()) == Drained(filter, old(Now()))
      ensures page.Some? <==> pageSize == 0 || Start(pageSize, pageNo) < |Drained(filter, Now())|
      ensures page.Some? ==> page.value.pageSize == pageSize && page.value.pageNo == pageNo
      ensures page.Some? ==>
        page.value.candidates
          == Cut(Drained(filter, Now()), Start(pageSize, pageNo), Start(pageSize, pageNo) + pageSize)
      ensures page.Some? ==> (page.value.isLastPage <==>
        translations == [] && Start(pageSize, pageNo) + pageSize >= |Drained(filter, Now())|)
    {
      hide Prepared, Drained, Start;
      var startPos := Start(pageSize, pageNo);
      var endPos := startPos + pageSize;
      EmptyPages(pageSize, pageNo);
      PreparedIsFirst(filter, Now(), endPos);
      PreparedAlready(filter, Now(), endPos);
      if endPos > |candidates| {
        if translations == [] {
          endPos := |candidates|;
        } else {
          endPos := Prepare(endPos);
        }
        if startPos >= endPos {
          return None;
        }
        endPos := if startPos + pageSize < endPos then startPos + pageSize else endPos;
      }
      return Some(Page(pageSize, pageNo, translations == [] && endPos == |candidates|, candidates[startPos..endPos]));
    }

    method GetCandidateAt(index: nat) returns (candidate: Option<Candidate>)
      modifies this
      ensures Now() == Prepared(filter, old(Now()), index + 1)
      ensures var d := Drained(filter, old(Now())); candidate == if index < |d| then Some(d[index]) else None
    {
      hide Prepared, Drained;
      PreparedIsFirst(filter, Now(), index + 1);
      PreparedAlready(filter, Now(), index + 1);
      if index >= |candidates| {
        var count := Prepare(index + 1);
        if index >= count {
          return None;
        }
      }
      return Some(candidates[index]);
    }
  }

  lemma PreparedAlready(filter: Filter, s: Stock, n: nat)
    ensures n <= |s.candidates| || s.translations == [] ==> Prepared(filter, s, n) == s
    ensures Prepared(filter, s, n).translations == [] ==> Prepared(filter, s, n).candidates == Drained(filter, s)
  {
    PreparedIsFirst(filter, s, n);
  }

  // ---------- where candidates come from ----------

  /** Offers a single candidate. */
  class UniqueTranslation {
    const candidate: Candidate
    var exhausted: bool

    constructor (candidate: Candidate)
      ensures Rest() == [candidate]
    {
      this.candidate, exhausted := candidate, false;
    }

    function Rest(): Translation
      reads this
    {
      if exhausted then [] else [candidate]
    }

    method Next() returns (ok: bool)
      modifies this
      ensures (ok <==> old(Rest()) != []) && Rest() == []
    {
      if exhausted {
        return false;
      }
      exhausted := true;
      return true;
    }

    function Peek(): (c: Option<Candidate>)
      reads this
      ensures c == if Rest() == [] then None else Some(Rest()[0])
    {
      if exhausted then None else Some(candidate)
    }
  }

  const SIZE_RANGE := 0x1_0000_0000_0000_0000

  /** Offers candidates in the order in which they have been appended. */
  class FifoTranslation {
    var candies: Candidates
    var cursor: nat
    var exhausted: bool

    constructor ()
      ensures Valid() && candies == [] && !exhausted && Rest() == []
    {
      candies, cursor, exhausted := [], 0, false;
    }

    /** The cursor passes the end at most by one, which happens to a translation that is moved on before it is
        filled. */
    ghost predicate Valid()
      reads this
    {
      cursor <= |candies| + 1 && if exhausted then cursor >= |candies| else cursor <= |candies|
    }

    /** The candidates from the cursor on. */
    ghost function Rest(): Translation
      reads this
    {
      if cursor <= |candies| then candies[cursor..] else []
    }

    /** The subtraction is one of 64 bits without a sign: it wraps around once the cursor has passed the end. */
    function Size(): (n: nat)
      reads this
      requires Valid() && |candies| < SIZE_RANGE
      ensures n == if cursor <= |candies| then |Rest()| else SIZE_RANGE - 1
    {
      (|candies| - cursor) % SIZE_RANGE
    }

    /** Refused just when the translation is exhausted, which one that has never been filled is not. */
    method Next() returns (ok: bool)
      requires Valid()
      modifies this
      ensures Valid() && candies == old(candies) && (ok <==> !old(exhausted))
      ensures Rest() == if old(Rest()) == [] then [] else old(Rest())[1..]
      ensures exhausted <==> Rest() == []
      ensures cursor == if ok then old(cursor) + 1 else old(cursor)
    {
      if exhausted {
        return false;
      }
      cursor := cursor + 1;
      if cursor >= |candies| {
        exhausted := true;
      }
      return true;
    }

    /** For a translation that is not exhausted there has to be a candidate to show. */
    function Peek(): (c: Option<Candidate>)
      reads this
      requires Valid() && (!exhausted ==> cursor < |candies|)
      ensures c == if Rest() == [] then None else Some(Rest()[0])
    {
      if exhausted then None else Some(candies[cursor])
    }

    /** An exhausted translation comes back to life; what is appended is skipped if the cursor has passed the end. */
    method Append(candy: Candidate)
      requires Valid()
      modifies this
      ensures Valid() && !exhausted && candies == old(candies) + [candy] && cursor == old(cursor)
      ensures Rest() == if old(cursor) <= |old(candies)| then old(Rest()) + [candy] else []
    {
      candies := candies + [candy];
      exhausted := false;
    }
  }
}
