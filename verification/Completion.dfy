/** The last part of the syllabifier: if the input goes on after the farthest position, what is left of it is taken for
    the beginning of a spelling. */
module Completions {
  import opened Spellings
  import opened PrismImages
  import opened SyllableGraphs
  import ExpandSearches
  import PruningTheorems

  const EXPAND_SEARCH_LIMIT := 512

  // ---------- one spelling ----------

  /** A syllable of a spelling that is not typed to its end is half as credible. */
  function AsCompletion(d: Descriptor): Descriptor {
    Descriptor(d.syllable, COMPLETION, d.credibility * 0.5)
  }

  function AsCompletions(ds: seq<Descriptor>): (cs: seq<Descriptor>)
    ensures |cs| == |ds| && forall i :: 0 <= i < |ds| ==> cs[i] == AsCompletion(ds[i])
  {
    if ds == [] then [] else AsCompletions(ds[..|ds| - 1]) + [AsCompletion(ds[|ds| - 1])]
  }

  predicate NormalOnly(ds: seq<Descriptor>) {
    forall i :: 0 <= i < |ds| ==> ds[i].kind == NORMAL
  }

  /** Where the loop over the syllables of a spelling is after `n` turns: a syllable that is not normal is passed over
      without moving on. */
  function After(ds: seq<Descriptor>, i: nat, n: nat): (j: nat)
    requires i <= |ds|
    ensures i <= j <= |ds|
    decreases n
  {
    if n == 0 || i == |ds| then i else After(ds, if ds[i].kind > NORMAL then i else i + 1, n - 1)
  }

  lemma {:induction false} StaysBefore(ds: seq<Descriptor>, i: nat, n: nat, bad: nat)
    requires i <= bad < |ds| && ds[bad].kind > NORMAL
    ensures After(ds, i, n) <= bad
    decreases n
  {
    if n > 0 {
      StaysBefore(ds, if ds[i].kind > NORMAL then i else i + 1, n - 1, bad);
    }
  }

  lemma {:induction false} GetsThrough(ds: seq<Descriptor>, i: nat)
    requires i <= |ds| && NormalOnly(ds)
    ensures After(ds, i, |ds| - i) == |ds|
    decreases |ds| - i
  {
    if i < |ds| {
      GetsThrough(ds, i + 1);
    }
  }

  /** The loop ends just when all the syllables of the spelling are normal. */
  lemma EndsExactly(ds: seq<Descriptor>)
    ensures (exists n: nat :: After(ds, 0, n) == |ds|) <==> NormalOnly(ds)
  {
    if NormalOnly(ds) {
      GetsThrough(ds, 0);
    } else {
      var bad :| 0 <= bad < |ds| && ds[bad].kind != NORMAL;
      forall n: nat
        ensures After(ds, 0, n) != |ds|
      {
        StaysBefore(ds, 0, n, bad);
      }
    }
  }

  /** Adds the syllables of a spelling as completions. */
  method CompleteSpelling(sp: SpellingMap, ds: seq<Descriptor>, end: nat) returns (spellings: SpellingMap)
    requires NormalOnly(ds)
    ensures spellings == InsertAll(sp, AsCompletions(ds), end)
  {
    spellings := sp;
    var i := 0;
    while i < |ds|
      invariant i <= |ds| && spellings == InsertAll(sp, AsCompletions(ds[..i]), end)
    {
      assert ds[..i + 1][..i] == ds[..i];
      if ds[i].kind <= NORMAL {
        spellings := Insert(spellings, AsCompletion(ds[i]), end);
        i := i + 1;
      }
    }
    assert ds[..i] == ds;
  }

  // ---------- all the spellings that the search gives ----------

  /** The completions that the matches give, those of the first matches first. */
  function Completed(prism: Image, ms: seq<Match>, length: nat, end: nat): SpellingMap {
    if ms == [] then map[] else
      var m, before := ms[|ms| - 1], Completed(prism, ms[..|ms| - 1], length, end);
      if m.length < length then before else InsertAll(before, AsCompletions(prism.Syllables(m.value)), end)
  }

  ghost predicate Offers(prism: Image, ms: seq<Match>, length: nat, d: Descriptor) {
    exists m :: m in ms && m.length >= length && d in prism.Syllables(m.value)
  }

  /** What a completion is worth. */
  function Worth(d: Descriptor, end: nat): Properties {
    Properties(COMPLETION, end, d.credibility * 0.5)
  }

  /** Exactly the syllables of the matches are added. */
  lemma {:induction false} CompletedExactly(prism: Image, ms: seq<Match>, length: nat, end: nat, s: int)
    ensures s in Completed(prism, ms, length, end) <==> exists d :: Offers(prism, ms, length, d) && d.syllable == s
  {
    if ms != [] {
      hide Image.Syllables, Offers, InsertAll, AsCompletions;
      var front, m := ms[..|ms| - 1], ms[|ms| - 1];
      CompletedExactly(prism, front, length, end, s);
      OffersNext(prism, ms, length);
      if m.length >= length {
        CompletionsInserted(Completed(prism, front, length, end), prism.Syllables(m.value), end, s);
      }
    }
  }

  /** They are completions that end with the input, and half as credible as they are in one of the matches. */
  lemma {:induction false} CompletedWorth(prism: Image, ms: seq<Match>, length: nat, end: nat, s: int)
    requires s in Completed(prism, ms, length, end)
    ensures exists d :: Offers(prism, ms, length, d) && d.syllable == s
                        && Completed(prism, ms, length, end)[s] == Worth(d, end)
  {
    hide Image.Syllables, Offers, InsertAll, AsCompletions, Worth;
    var front, m := ms[..|ms| - 1], ms[|ms| - 1];
    OffersNext(prism, ms, length);
    if m.length >= length {
      CompletionsInserted(Completed(prism, front, length, end), prism.Syllables(m.value), end, s);
    }
    if s in Completed(prism, front, length, end) {
      CompletedWorth(prism, front, length, end, s);
    }
  }

  lemma OffersNext(prism: Image, ms: seq<Match>, length: nat)
    requires ms != []
    ensures var front, m := ms[..|ms| - 1], ms[|ms| - 1];
            forall d :: Offers(prism, ms, length, d)
                   <==> (Offers(prism, front, length, d) || (m.length >= length && d in prism.Syllables(m.value)))
  {
    hide Image.Syllables;
    assert ms == ms[..|ms| - 1] + [ms[|ms| - 1]];
  }

  lemma CompletionsInserted(sp: SpellingMap, ds: seq<Descriptor>, end: nat, s: int)
    ensures s in InsertAll(sp, AsCompletions(ds), end) <==> s in sp || exists d :: d in ds && d.syllable == s
    ensures s in sp ==> InsertAll(sp, AsCompletions(ds), end)[s] == sp[s]
    ensures s in InsertAll(sp, AsCompletions(ds), end) && s !in sp ==>
      exists d :: d in ds && d.syllable == s && InsertAll(sp, AsCompletions(ds), end)[s] == Worth(d, end)
  {
    hide AsCompletions, InsertAll;
    var cs := AsCompletions(ds);
    assert forall i :: 0 <= i < |ds| ==> ds[i] in ds && cs[i] in cs && PropertiesOf(cs[i], end) == Worth(ds[i], end);
    if d :| d in ds && d.syllable == s {
      var i :| 0 <= i < |ds| && ds[i] == d;
      assert cs[i].syllable == s;
      PruningTheorems.InsertHas(sp, cs, end, cs[i]);
    }
    if s in sp {
      PruningTheorems.InsertKeeps(sp, cs, end, s);
    } else if s in InsertAll(sp, cs, end) {
      PruningTheorems.InsertedFrom(sp, cs, end, s);
      var c :| c in cs && c.syllable == s && InsertAll(sp, cs, end)[s] == PropertiesOf(c, end);
      var i :| 0 <= i < |cs| && cs[i] == c;
      assert ds[i] in ds && ds[i].syllable == s;
    }
  }

  // ---------- the edge to the end of the input ----------

  /** The search for what is left of the input. */
  function Rest(q: Query, alphabet: string, from: nat): ExpandSearches.Quest
    requires from <= |q.input|
  {
    ExpandSearches.Quest(q.prism, alphabet, q.input[from..])
  }

  ghost predicate Answer(q: Query, alphabet: string, from: nat, ms: seq<Match>)
    requires from <= |q.input|
  {
    ExpandSearches.Answers(Rest(q, alphabet, from), EXPAND_SEARCH_LIMIT, ms)
  }

  /** The syllables of all that the search gives are normal, so that every loop over them ends. */
  ghost predicate Completable(q: Query, alphabet: string, from: nat)
    requires from <= |q.input|
  {
    forall ms: seq<Match>, m: Match :: Answer(q, alphabet, from, ms) && m in ms ==>
      NormalOnly(q.prism.Syllables(m.value))
  }

  /** The edges, with one more to the end of the input if the search has found anything. */
  function WithCompletion(q: Query, edges: EdgeMap, from: nat, ms: seq<Match>): EdgeMap
    requires from <= |q.input|
  {
    if ms == [] then edges else
      var ends := if from in edges then edges[from] else map[];
      edges[from := ends[|q.input| := Completed(q.prism, ms, |q.input| - from, |q.input|)]]
  }

  /** Every key that goes on from what is left is at least as long. */
  lemma NoneTooShort(q: Query, alphabet: string, from: nat, ms: seq<Match>)
    requires from <= |q.input| && Answer(q, alphabet, from, ms)
    ensures forall m :: m in ms ==> m.length >= |q.input| - from
  {
    var quest := Rest(q, alphabet, from);
    var found :| ExpandSearches.FirstWanted(quest, found, EXPAND_SEARCH_LIMIT)
      && ms == ExpandSearches.MatchesOf(q.prism, found);
    forall m | m in ms
      ensures m.length >= |q.input| - from
    {
      var i :| 0 <= i < |ms| && ms[i] == m;
      assert found[i] in found && quest.Wanted(found[i]);
    }
  }

  /** `k` is a key that begins with what is left of the input and goes on with characters of the alphabet. */
  ghost predicate Continues(q: Query, alphabet: string, from: nat, k: string)
    requires from <= |q.input|
  {
    k in q.prism.keys && q.input[from..] <= k && forall i :: |q.input| - from <= i < |k| ==> k[i] in alphabet
  }

  /** The search finds such keys only, and all of them if it finds less than 512. */
  lemma AnswerContinues(q: Query, alphabet: string, from: nat, ms: seq<Match>)
    requires from <= |q.input| && Answer(q, alphabet, from, ms)
    ensures forall m :: m in ms ==>
      exists k :: Continues(q, alphabet, from, k) && m == Match(q.prism.Rank(k), |k|)
    ensures |ms| < 512 ==> forall k :: Continues(q, alphabet, from, k) ==>
      q.prism.Rank(k) >= 0 && Match(q.prism.Rank(k), |k|) in ms
  {
    var quest := Rest(q, alphabet, from);
    ExpandSearches.AnswerExactly(quest, EXPAND_SEARCH_LIMIT, ms);
    assert forall k :: ExpandSearches.GoesOn(quest, k) <==> Continues(q, alphabet, from, k);
    hide Answer, Image.Rank, Continues, ExpandSearches.GoesOn;
  }

  /** The completions are syllables of such keys. */
  lemma CompletesKeys(q: Query, alphabet: string, from: nat, ms: seq<Match>, s: int)
    requires from <= |q.input| && Answer(q, alphabet, from, ms)
    requires s in Completed(q.prism, ms, |q.input| - from, |q.input|)
    ensures exists k, d :: Continues(q, alphabet, from, k) && q.prism.Rank(k) >= 0
                           && d in q.prism.Syllables(q.prism.Rank(k)) && d.syllable == s
  {
    hide Answer, Completed, Image.Rank, Image.Syllables, Continues;
    AnswerContinues(q, alphabet, from, ms);
    CompletedExactly(q.prism, ms, |q.input| - from, |q.input|, s);
    var d :| Offers(q.prism, ms, |q.input| - from, d) && d.syllable == s;
    var m :| m in ms && d in q.prism.Syllables(m.value);
  }

  /** All syllables of all such keys are completions, if there are less than 512. */
  lemma KeysAreCompleted(q: Query, alphabet: string, from: nat, ms: seq<Match>, k: string, d: Descriptor)
    requires from <= |q.input| && Answer(q, alphabet, from, ms) && |ms| < 512
    requires Continues(q, alphabet, from, k) && q.prism.Rank(k) >= 0 && d in q.prism.Syllables(q.prism.Rank(k))
    ensures d.syllable in Completed(q.prism, ms, |q.input| - from, |q.input|)
  {
    hide Answer, Completed, Image.Rank, Image.Syllables, Continues;
    AnswerContinues(q, alphabet, from, ms);
    NoneTooShort(q, alphabet, from, ms);
    assert Match(q.prism.Rank(k), |k|) in ms;
    assert Offers(q.prism, ms, |q.input| - from, d);
    CompletedExactly(q.prism, ms, |q.input| - from, |q.input|, d.syllable);
  }

  /** Nothing but one edge is changed. */
  lemma CompletionAddsOne(q: Query, edges: EdgeMap, from: nat, ms: seq<Match>, p: nat, j: nat, s: int)
    requires from <= |q.input|
    ensures var out: EdgeMap := WithCompletion(q, edges, from, ms);
            if ms != [] && p == from && j == |q.input| then
              PruningTheorems.Has(out, p, j, s) <==> s in Completed(q.prism, ms, |q.input| - from, |q.input|)
            else
              (PruningTheorems.Has(out, p, j, s) <==> PruningTheorems.Has(edges, p, j, s))
              && (PruningTheorems.Has(edges, p, j, s) ==> out[p][j][s] == edges[p][j][s])
  {
  }

  /** What the search for completions has given, if it has been asked. */
  ghost predicate Searched(q: Query, enabled: bool, alphabet: string, from: nat, ms: seq<Match>) {
    if enabled && from < |q.input| then Answer(q, alphabet, from, ms) else ms == []
  }

  /** Completes what is left of the input, if that is enabled: one edge is added to the end, with the syllables of the
      keys that go on from there. */
  method Complete(q: Query, enabled: bool, alphabet: string, g: SyllableGraph, from: nat)
    returns (end: nat, ghost ms: seq<Match>)
    requires from <= |q.input|
    requires enabled && from < |q.input| ==> ExpandSearches.AscendingChars(alphabet) && Completable(q, alphabet, from)
    requires forall j :: from in g.edges && j in g.edges[from] ==> j <= from
    modifies g`edges
    ensures Searched(q, enabled, alphabet, from, ms)
    ensures g.edges == WithCompletion(q, old(g.edges), from, ms)
    ensures end == (if ms == [] then from else |q.input|) && (ms != [] ==> from < |q.input|)
  {
    hide ExpandSearches.Answers, ExpandSearches.AscendingChars, InsertAll, Image.Syllables;
    if !enabled || from == |q.input| {
      return from, [];
    }
    var keys := ExpandSearches.ExpandSearch(Rest(q, alphabet, from), EXPAND_SEARCH_LIMIT);
    ms := keys;
    end := from;
    if keys == [] {
      return;
    }
    NoneTooShort(q, alphabet, from, keys);
    var codeLength := |q.input| - from;
    var endVertices := if from in g.edges then g.edges[from] else map[];
    var spellings: SpellingMap := map[];
    for i := 0 to |keys|
      invariant spellings == Completed(q.prism, keys[..i], codeLength, |q.input|)
      invariant end == (if i == 0 then from else |q.input|) && g.edges == old(g.edges)
    {
      assert keys[..i + 1][..i] == keys[..i] && keys[i] in keys;
      if keys[i].length >= codeLength {
        end := |q.input|;
        spellings := CompleteSpelling(spellings, q.prism.Syllables(keys[i].value), end);
      }
    }
    assert keys[..|keys|] == keys;
    assert spellings == Completed(q.prism, keys, |q.input| - from, |q.input|);
    g.edges := g.edges[from := endVertices[|q.input| := spellings]];
  }
}
