/** Spelling algebra: rules rewrite a script, which maps each spelling to the syllables it stands for. */
module Algebras {
  import opened Spellings

  /** The properties that the algebra changes. */
  datatype Sort = Sort(kind: SpellingType, credibility: real)
  const PLAIN := Sort(NORMAL, 1.0)

  datatype Spelling = Spelling(str: string, sort: Sort)

  type Lists = map<string, seq<Spelling>>

  /** A calculation: what it makes of a spelling, or None if it does not apply, and its two flags. */
  datatype Rule = Rule(apply: string -> Option<Spelling>, deletion: bool, addition: bool)

  // ---------- merging ----------

  function Combine(sp: Sort, s: Sort): Sort {
    Sort(Worse(s.kind, sp.kind), s.credibility * sp.credibility)
  }

  function Improve(z: Sort, y: Sort): Sort {
    Sort(Better(z.kind, y.kind), if y.credibility > z.credibility then y.credibility else z.credibility)
  }

  /** The index of the first entry for `str`, or the length of the list. */
  function Find(m: seq<Spelling>, str: string): (i: nat)
    ensures i <= |m| && (i < |m| ==> m[i].str == str) && forall k :: 0 <= k < i ==> m[k].str != str
  {
    if m == [] || m[0].str == str then 0 else 1 + Find(m[1..], str)
  }

  function MergeOne(m: seq<Spelling>, sp: Sort, x: Spelling): seq<Spelling> {
    var y := Combine(sp, x.sort);
    var i := Find(m, x.str);
    if i == |m| then m + [Spelling(x.str, y)] else m[i := Spelling(m[i].str, Improve(m[i].sort, y))]
  }

  function MergeAll(m: seq<Spelling>, sp: Sort, v: seq<Spelling>): seq<Spelling> {
    if v == [] then m else MergeOne(MergeAll(m, sp, v[..|v| - 1]), sp, v[|v| - 1])
  }

  function Lookup(lists: Lists, s: string): seq<Spelling> {
    if s in lists then lists[s] else []
  }

  method FindSpelling(m: seq<Spelling>, str: string) returns (i: nat)
    ensures i == Find(m, str)
  {
    i := 0;
    while i < |m| && m[i].str != str
      invariant i <= |m| && i + Find(m[i..], str) == Find(m, str)
    {
      i := i + 1;
    }
  }

  lemma MergeAllNext(m: seq<Spelling>, sp: Sort, v: seq<Spelling>, n: nat)
    requires n < |v|
    ensures MergeAll(m, sp, v[..n + 1]) == MergeOne(MergeAll(m, sp, v[..n]), sp, v[n])
  {
    assert v[..n + 1][..n] == v[..n];
  }

  /** Merging leaves the entries that are there in their places, and puts new ones behind them. */
  lemma {:induction false} MergeAllKeepsOrder(m: seq<Spelling>, sp: Sort, v: seq<Spelling>)
    ensures |m| <= |MergeAll(m, sp, v)| && forall i :: 0 <= i < |m| ==> MergeAll(m, sp, v)[i].str == m[i].str
    ensures forall i :: |m| <= i < |MergeAll(m, sp, v)| ==> exists e :: e in v && e.str == MergeAll(m, sp, v)[i].str
    decreases |v|
  {
    if v != [] {
      MergeAllKeepsOrder(m, sp, v[..|v| - 1]);
      hide Combine, Improve, MergeAll;
      MergeAllNext(m, sp, v, |v| - 1);
      assert v[..|v|] == v && v[|v| - 1] in v;
    }
  }

  class Script {
    var lists: Lists

    constructor ()
      ensures lists == map[]
    {
      lists := map[];
    }

    method AddSyllable(syllable: string) returns (added: bool)
      modifies this
      ensures added <==> syllable !in old(lists)
      ensures lists == if added then old(lists)[syllable := [Spelling(syllable, PLAIN)]] else old(lists)
    {
      if syllable in lists {
        return false;
      }
      lists := lists[syllable := [Spelling(syllable, PLAIN)]];
      return true;
    }

    method Merge(s: string, sp: Sort, v: seq<Spelling>)
      modifies this
      ensures lists == old(lists)[s := MergeAll(Lookup(old(lists), s), sp, v)]
    {
      var m := Lookup(lists, s);
      for n := 0 to |v|
        invariant m == MergeAll(Lookup(old(lists), s), sp, v[..n]) && lists == old(lists)
      {
        MergeAllNext(Lookup(old(lists), s), sp, v, n);
        m := MergeEntry(m, sp, v[n]);
      }
      assert v[..|v|] == v;
      lists := lists[s := m];
    }
  }

  /** Adds one entry to a list, or improves the one that is there. */
  method MergeEntry(list: seq<Spelling>, sp: Sort, x: Spelling) returns (m: seq<Spelling>)
    ensures m == MergeOne(list, sp, x)
  {
    m := list;
    var y := Sort(if sp.kind > x.sort.kind then sp.kind else x.sort.kind, x.sort.credibility * sp.credibility);
    assert y == Combine(sp, x.sort);
    var e := FindSpelling(m, x.str);
    if e == |m| {
      m := m + [Spelling(x.str, y)];
    } else {
      var z := m[e].sort;
      if y.kind < z.kind {
        z := z.(kind := y.kind);
      }
      if y.credibility > z.credibility {
        z := z.(credibility := y.credibility);
      }
      assert z == Improve(m[e].sort, y);
      m := m[e := m[e].(sort := z)];
    }
  }

  // ---------- what a list says about a set of sorts ----------

  ghost predicate Distinct(m: seq<Spelling>) {
    forall i, j :: 0 <= i < j < |m| ==> m[i].str != m[j].str
  }

  function EntryOf(m: seq<Spelling>, x: string): Option<Sort> {
    var i := Find(m, x);
    if i < |m| then Some(m[i].sort) else None
  }

  ghost predicate Covers(e: Sort, c: Sort) {
    e.kind <= c.kind && e.credibility >= c.credibility
  }

  ghost predicate HasKind(cs: iset<Sort>, kind: SpellingType) {
    exists c :: c in cs && c.kind == kind
  }

  ghost predicate HasCredibility(cs: iset<Sort>, credibility: real) {
    exists c :: c in cs && c.credibility == credibility
  }

  /** `z` has the least type and the greatest credibility of `cs`. */
  ghost predicate Bound(z: Sort, cs: iset<Sort>) {
    && (forall c :: c in cs ==> Covers(z, c))
    && HasKind(cs, z.kind) && HasCredibility(cs, z.credibility)
  }

  /** There is an entry just when `cs` is not empty, and it is its bound. */
  ghost predicate Summarizes(z: Option<Sort>, cs: iset<Sort>) {
    match z
    case None => cs == iset{}
    case Some(e) => Bound(e, cs)
  }

  lemma FindIsUnique(m: seq<Spelling>, x: string, i: nat)
    requires i < |m| && m[i].str == x && forall k :: 0 <= k < i ==> m[k].str != x
    ensures Find(m, x) == i
  {
  }

  lemma MergeOneEntry(m: seq<Spelling>, sp: Sort, v: Spelling, x: string)
    ensures EntryOf(MergeOne(m, sp, v), x) == if x != v.str then EntryOf(m, x) else
      match EntryOf(m, x) case None => Some(Combine(sp, v.sort)) case Some(z) => Some(Improve(z, Combine(sp, v.sort)))
  {
    var m', i := MergeOne(m, sp, v), Find(m, x);
    if i < |m| {
      FindIsUnique(m', x, i);
    } else if x == v.str {
      FindIsUnique(m', x, |m|);
    }
  }

  lemma MergeOneDistinct(m: seq<Spelling>, sp: Sort, v: Spelling)
    requires Distinct(m)
    ensures Distinct(MergeOne(m, sp, v)) && MergeOne(m, sp, v) != []
  {
  }

  lemma Improves(z: Sort, y: Sort, cs: iset<Sort>)
    requires Bound(z, cs)
    ensures Bound(Improve(z, y), cs + iset{y})
  {
    var cs' := cs + iset{y};
    var c :| c in cs && c.kind == z.kind;
    var d :| d in cs && d.credibility == z.credibility;
    assert y in cs' && c in cs' && d in cs';
  }

  /** What merging `v` adds to the sorts of `x`. */
  ghost function Added(sp: Sort, v: seq<Spelling>, x: string): iset<Sort> {
    iset e | e in v && e.str == x :: Combine(sp, e.sort)
  }

  lemma {:induction false} MergeAllSummarizes(m: seq<Spelling>, sp: Sort, v: seq<Spelling>, x: string, cs: iset<Sort>)
    requires Summarizes(EntryOf(m, x), cs)
    ensures Summarizes(EntryOf(MergeAll(m, sp, v), x), cs + Added(sp, v, x))
    decreases |v|
  {
    if v == [] {
      assert cs + Added(sp, v, x) == cs;
    } else {
      var init, last := v[..|v| - 1], v[|v| - 1];
      var cs', y := cs + Added(sp, init, x), Combine(sp, last.sort);
      MergeAllSummarizes(m, sp, init, x, cs);
      AddedNext(sp, v, x);
      MergeOneEntry(MergeAll(m, sp, init), sp, last, x);
      hide EntryOf, Added, MergeOne;
      if last.str == x {
        assert cs + Added(sp, v, x) == cs' + iset{y};
        match EntryOf(MergeAll(m, sp, init), x) {
          case None => assert y in cs' + iset{y};
          case Some(z) => Improves(z, y, cs');
        }
      }
    }
  }

  lemma AddedNext(sp: Sort, v: seq<Spelling>, x: string)
    requires v != []
    ensures var rest := Added(sp, v[..|v| - 1], x); var last := v[|v| - 1];
      Added(sp, v, x) == if last.str == x then rest + iset{Combine(sp, last.sort)} else rest
  {
    var init, last := v[..|v| - 1], v[|v| - 1];
    assert v == init + [last];
    assert forall e :: e in v <==> e in init || e == last;
  }

  lemma {:induction false} MergeAllDistinct(m: seq<Spelling>, sp: Sort, v: seq<Spelling>)
    requires Distinct(m)
    ensures Distinct(MergeAll(m, sp, v)) && (m != [] || v != [] ==> MergeAll(m, sp, v) != [])
    decreases |v|
  {
    if v != [] {
      MergeAllDistinct(m, sp, v[..|v| - 1]);
      MergeOneDistinct(MergeAll(m, sp, v[..|v| - 1]), sp, v[|v| - 1]);
    }
  }

  // ---------- one round ----------

  /** The rule takes the syllables of `k` to `s`: as they are, or with the properties of the rewritten spelling. */
  ghost predicate Moves(rule: Rule, k: string, s: string, ms: Sort) {
    match rule.apply(k)
    case None => s == k && ms == PLAIN
    case Some(r) =>
      (!rule.deletion && s == k && ms == PLAIN) || (rule.addition && r.str != "" && s == r.str && ms == r.sort)
  }

  /** The sorts that the spellings in `done` contribute to syllable `x` of spelling `s`. */
  ghost function Contributed(a: Lists, rule: Rule, done: set<string>, s: string, x: string): iset<Sort> {
    iset k, e, ms | k in done && k in a && e in a[k] && e.str == x && Moves(rule, k, s, ms) :: Combine(ms, e.sort)
  }

  ghost predicate Tidy(lists: Lists) {
    forall s :: s in lists ==> Distinct(lists[s]) && lists[s] != []
  }

  ghost predicate RoundOf(a: Lists, rule: Rule, done: set<string>, out: Lists) {
    Tidy(out) && forall s, x :: Summarizes(EntryOf(Lookup(out, s), x), Contributed(a, rule, done, s, x))
  }

  function MergeInto(lists: Lists, s: string, sp: Sort, v: seq<Spelling>): Lists {
    lists[s := MergeAll(Lookup(lists, s), sp, v)]
  }

  /** What one spelling of the old script becomes. */
  function RewriteOne(temp: Lists, rule: Rule, k: string, v: seq<Spelling>): Lists {
    var kept := if Keeps(rule, k) then MergeInto(temp, k, PLAIN, v) else temp;
    if Rewrites(rule, k) then MergeInto(kept, rule.apply(k).value.str, rule.apply(k).value.sort, v) else kept
  }

  lemma MergeIntoSummarizes(lists: Lists, s0: string, sp: Sort, v: seq<Spelling>, s: string, x: string, cs: iset<Sort>)
    requires Summarizes(EntryOf(Lookup(lists, s), x), cs)
    ensures Summarizes(EntryOf(Lookup(MergeInto(lists, s0, sp, v), s), x),
                       cs + if s == s0 then Added(sp, v, x) else iset{})
  {
    if s == s0 {
      MergeAllSummarizes(Lookup(lists, s), sp, v, x, cs);
    } else {
      assert cs + iset{} == cs;
    }
  }

  lemma MergeIntoTidy(lists: Lists, s0: string, sp: Sort, v: seq<Spelling>)
    requires Tidy(lists) && v != []
    ensures Tidy(MergeInto(lists, s0, sp, v))
  {
    MergeAllDistinct(Lookup(lists, s0), sp, v);
    hide Distinct;
  }

  /** What the moves from `k` add to the sorts of `x` at `s`. */
  ghost function Moved(rule: Rule, k: string, v: seq<Spelling>, s: string, x: string): iset<Sort> {
    iset e, ms | e in v && e.str == x && Moves(rule, k, s, ms) :: Combine(ms, e.sort)
  }

  lemma MoveAdds(rule: Rule, k: string, v: seq<Spelling>, s: string, x: string, sp: Sort)
    requires Moves(rule, k, s, sp)
    ensures Added(sp, v, x) <= Moved(rule, k, v, s, x)
  {
    forall c | c in Added(sp, v, x)
      ensures c in Moved(rule, k, v, s, x)
    {
      var e :| e in v && e.str == x && c == Combine(sp, e.sort);
      assert Moves(rule, k, s, sp);
    }
  }

  /** These are the sorts as they are, if the spelling is left, and those of what the rule makes of it. */
  lemma MovedExactly(rule: Rule, k: string, v: seq<Spelling>, s: string, x: string, c: Sort)
    ensures c in Moved(rule, k, v, s, x)
       <==> exists e :: e in v && e.str == x
              && ((s == k && (rule.apply(k).None? || !rule.deletion) && c == e.sort)
                  || Rewritten(rule, k, e.sort, s, c))
  {
    forall e | e in v && e.str == x
      ensures Combine(PLAIN, e.sort) == e.sort
    {
    }
    if e :| e in v && e.str == x && s == k && (rule.apply(k).None? || !rule.deletion) && c == e.sort {
      assert Moves(rule, k, s, PLAIN) && Combine(PLAIN, e.sort) == c;
    }
    if e :| e in v && e.str == x && Rewritten(rule, k, e.sort, s, c) {
      assert Moves(rule, k, s, rule.apply(k).value.sort) && Combine(rule.apply(k).value.sort, e.sort) == c;
    }
  }

  ghost function AddedIf(to: bool, sp: Sort, v: seq<Spelling>, x: string): iset<Sort> {
    if to then Added(sp, v, x) else iset{}
  }

  predicate Keeps(rule: Rule, k: string) {
    rule.apply(k).None? || !rule.deletion
  }

  predicate Rewrites(rule: Rule, k: string) {
    rule.apply(k).Some? && rule.addition && rule.apply(k).value.str != ""
  }

  lemma MovedIs(rule: Rule, k: string, v: seq<Spelling>, s: string, x: string)
    ensures Moved(rule, k, v, s, x)
      == AddedIf(Keeps(rule, k) && s == k, PLAIN, v, x)
       + if Rewrites(rule, k) then AddedIf(s == rule.apply(k).value.str, rule.apply(k).value.sort, v, x) else iset{}
  {
    if Keeps(rule, k) && s == k {
      MoveAdds(rule, k, v, s, x, PLAIN);
    }
    if Rewrites(rule, k) && s == rule.apply(k).value.str {
      MoveAdds(rule, k, v, s, x, rule.apply(k).value.sort);
    }
    forall c | c in Moved(rule, k, v, s, x)
      ensures c in AddedIf(Keeps(rule, k) && s == k, PLAIN, v, x)
        || (Rewrites(rule, k) && c in AddedIf(s == rule.apply(k).value.str, rule.apply(k).value.sort, v, x))
    {
    }
  }

  lemma RewriteOneSummarizes(temp: Lists, rule: Rule, k: string, v: seq<Spelling>, s: string, x: string, cs: iset<Sort>)
    requires Summarizes(EntryOf(Lookup(temp, s), x), cs)
    ensures Summarizes(EntryOf(Lookup(RewriteOne(temp, rule, k, v), s), x), cs + Moved(rule, k, v, s, x))
  {
    MovedIs(rule, k, v, s, x);
    hide Summarizes, EntryOf, Lookup, MergeInto, Moved, Added;
    var kept, cs' := temp, cs;
    if Keeps(rule, k) {
      MergeIntoSummarizes(temp, k, PLAIN, v, s, x, cs);
      kept, cs' := MergeInto(temp, k, PLAIN, v), cs + AddedIf(s == k, PLAIN, v, x);
    }
    if Rewrites(rule, k) {
      var r := rule.apply(k).value;
      MergeIntoSummarizes(kept, r.str, r.sort, v, s, x, cs');
      assert cs' + AddedIf(s == r.str, r.sort, v, x) == cs + Moved(rule, k, v, s, x);
    } else {
      assert cs' == cs + Moved(rule, k, v, s, x);
    }
  }

  lemma RewriteOneTidy(temp: Lists, rule: Rule, k: string, v: seq<Spelling>)
    requires Tidy(temp) && v != []
    ensures Tidy(RewriteOne(temp, rule, k, v))
  {
    hide Tidy, MergeInto;
    MergeIntoTidy(temp, k, PLAIN, v);
    if Rewrites(rule, k) {
      var kept := if Keeps(rule, k) then MergeInto(temp, k, PLAIN, v) else temp;
      MergeIntoTidy(kept, rule.apply(k).value.str, rule.apply(k).value.sort, v);
    }
  }

  /** Handling one more spelling, in any order, keeps the round invariant. */
  lemma RoundNext(a: Lists, rule: Rule, done: set<string>, out: Lists, k: string)
    requires Tidy(a) && RoundOf(a, rule, done, out) && k in a
    ensures RoundOf(a, rule, done + {k}, RewriteOne(out, rule, k, a[k]))
  {
    var out' := RewriteOne(out, rule, k, a[k]);
    RewriteOneTidy(out, rule, k, a[k]);
    hide Summarizes, EntryOf, Lookup, RewriteOne, Distinct;
    forall s, x
      ensures Summarizes(EntryOf(Lookup(out', s), x), Contributed(a, rule, done + {k}, s, x))
    {
      RewriteOneSummarizes(out, rule, k, a[k], s, x, Contributed(a, rule, done, s, x));
      ContributedNext(a, rule, done, k, s, x);
    }
  }

  lemma ContributedNext(a: Lists, rule: Rule, done: set<string>, k: string, s: string, x: string)
    requires k in a
    ensures Contributed(a, rule, done + {k}, s, x) == Contributed(a, rule, done, s, x) + Moved(rule, k, a[k], s, x)
  {
    hide Moves, Combine;
  }

  // ---------- any number of rounds ----------

  /** The sorts of the rewrite chains that take syllable `x` to spelling `s`: the worst type on the way,
      and the product of the credibilities. */
  ghost function Chains(start: Lists, rules: seq<Rule>, s: string, x: string): iset<Sort>
    decreases |rules|
  {
    if |rules| == 0 then iset c | s in start && Spelling(x, c) in start[s]
    else
      var before, last := rules[..|rules| - 1], rules[|rules| - 1];
      iset k, d, ms | d in Chains(start, before, k, x) && Moves(last, k, s, ms) :: Combine(ms, d)
  }

  /** No list has a syllable twice, and each entry is the best that the chains can do. */
  ghost predicate Exact(start: Lists, rules: seq<Rule>, lists: Lists) {
    Tidy(lists) && forall s, x :: Summarizes(EntryOf(Lookup(lists, s), x), Chains(start, rules, s, x))
  }

  ghost predicate NonNegative(rule: Rule) {
    forall k :: rule.apply(k).Some? ==> rule.apply(k).value.sort.credibility >= 0.0
  }

  lemma EntryIsInList(m: seq<Spelling>, x: string)
    requires EntryOf(m, x).Some?
    ensures Spelling(x, EntryOf(m, x).value) in m
  {
    assert m[Find(m, x)] in m;
  }

  lemma DistinctEntry(m: seq<Spelling>, e: Spelling)
    requires Distinct(m) && e in m
    ensures EntryOf(m, e.str) == Some(e.sort)
  {
    var i :| 0 <= i < |m| && m[i] == e;
    FindIsUnique(m, e.str, i);
  }

  lemma ExactAtStart(start: Lists)
    requires Tidy(start)
    ensures Exact(start, [], start)
  {
    forall s, x
      ensures Summarizes(EntryOf(Lookup(start, s), x), Chains(start, [], s, x))
    {
      var m := Lookup(start, s);
      if EntryOf(m, x).Some? {
        EntryIsInList(m, x);
        var c := EntryOf(m, x).value;
        assert c in Chains(start, [], s, x);
        forall d | d in Chains(start, [], s, x)
          ensures d == c
        {
          DistinctEntry(m, Spelling(x, d));
        }
      } else {
        forall d | d in Chains(start, [], s, x)
          ensures false
        {
          DistinctEntry(m, Spelling(x, d));
        }
      }
    }
  }

  lemma CombineMonotone(ms: Sort, e: Sort, d: Sort)
    requires Covers(e, d) && ms.credibility >= 0.0
    ensures Covers(Combine(ms, e), Combine(ms, d))
  {
    assert (e.credibility - d.credibility) * ms.credibility >= 0.0;
  }

  /** A chain that ends with a move from `k` is covered by what the entry at `k` contributed. */
  lemma ChainCovered(start: Lists, rules: seq<Rule>, a: Lists, rule: Rule, k: string, s: string, x: string,
                     ms: Sort, d: Sort)
    requires Exact(start, rules, a) && NonNegative(rule)
    requires d in Chains(start, rules, k, x) && Moves(rule, k, s, ms)
    ensures exists y :: y in Contributed(a, rule, a.Keys, s, x) && Covers(y, Combine(ms, d))
  {
    var m := Lookup(a, k);
    assert Summarizes(EntryOf(m, x), Chains(start, rules, k, x));
    EntryIsInList(m, x);
    var e := Spelling(x, EntryOf(m, x).value);
    CombineMonotone(ms, e.sort, d);
    hide Exact, Chains, Moves;
    assert Combine(ms, e.sort) in Contributed(a, rule, a.Keys, s, x);
  }

  /** What an entry contributed is, in each component, attained by a chain. */
  lemma ContributionAttained(start: Lists, rules: seq<Rule>, a: Lists, rule: Rule, s: string, x: string, y: Sort)
    requires Exact(start, rules, a) && y in Contributed(a, rule, a.Keys, s, x)
    ensures HasKind(Chains(start, rules + [rule], s, x), y.kind)
    ensures HasCredibility(Chains(start, rules + [rule], s, x), y.credibility)
  {
    hide Exact, Chains, Moves, Combine;
    var k, e, ms :| k in a.Keys && k in a && e in a[k] && e.str == x && Moves(rule, k, s, ms)
        && y == Combine(ms, e.sort);
    EntryAttained(start, rules, a, k, e);
    hide Contributed;
    var c :| c in Chains(start, rules, k, x) && c.kind == e.sort.kind;
    var d :| d in Chains(start, rules, k, x) && d.credibility == e.sort.credibility;
    ChainExtends(start, rules, rule, k, s, x, ms, c);
    ChainExtends(start, rules, rule, k, s, x, ms, d);
    CombineParts(ms, e.sort, c, d);
  }

  lemma CombineParts(ms: Sort, e: Sort, c: Sort, d: Sort)
    requires c.kind == e.kind && d.credibility == e.credibility
    ensures Combine(ms, c).kind == Combine(ms, e).kind && Combine(ms, d).credibility == Combine(ms, e).credibility
  {
  }

  lemma EntryAttained(start: Lists, rules: seq<Rule>, a: Lists, k: string, e: Spelling)
    requires Exact(start, rules, a) && k in a && e in a[k]
    ensures HasKind(Chains(start, rules, k, e.str), e.sort.kind)
    ensures HasCredibility(Chains(start, rules, k, e.str), e.sort.credibility)
  {
    DistinctEntry(a[k], e);
    assert Summarizes(EntryOf(Lookup(a, k), e.str), Chains(start, rules, k, e.str));
  }

  lemma ChainExtends(start: Lists, rules: seq<Rule>, rule: Rule, k: string, s: string, x: string,
                     ms: Sort, d: Sort)
    requires d in Chains(start, rules, k, x) && Moves(rule, k, s, ms)
    ensures Combine(ms, d) in Chains(start, rules + [rule], s, x)
  {
    assert (rules + [rule])[..|rules|] == rules;
  }

  lemma ChainSplits(start: Lists, rules: seq<Rule>, rule: Rule, s: string, x: string, c: Sort)
    requires c in Chains(start, rules + [rule], s, x)
    ensures exists k, d, ms :: d in Chains(start, rules, k, x) && Moves(rule, k, s, ms) && c == Combine(ms, d)
  {
    assert (rules + [rule])[..|rules|] == rules;
  }

  /** A rule yields `k` for `j` if it is the same spelling and the rule does not match it, or does not delete what it
      matches, or if the rule adds what `j` becomes, and that is `k`. */
  predicate Yields(rule: Rule, j: string, k: string) {
    || (j == k && rule.apply(j).None?) || (j == k && !rule.deletion)
    || (rule.addition && rule.apply(j).Some? && rule.apply(j).value.str == k && k != "")
  }

  /** The rule adds `s` for `k`, with the worse of the two types and the product of the credibilities. */
  predicate Rewritten(rule: Rule, k: string, d: Sort, s: string, c: Sort) {
    && rule.addition && rule.apply(k).Some? && rule.apply(k).value.str == s && s != ""
    && c.kind == Worse(d.kind, rule.apply(k).value.sort.kind)
    && c.credibility == d.credibility * rule.apply(k).value.sort.credibility
  }

  /** What one more rule does to the chains: those to a spelling that it does not match, or does not delete, stay as
      they are; those to a spelling that it rewrites go on; and there are no others. */
  lemma ChainsNextExactly(start: Lists, rules: seq<Rule>, rule: Rule, s: string, x: string, c: Sort)
    ensures c in Chains(start, rules + [rule], s, x)
       <==> (((rule.apply(s).None? || !rule.deletion) && c in Chains(start, rules, s, x))
             || exists k, d :: d in Chains(start, rules, k, x) && Rewritten(rule, k, d, s, c))
  {
    hide Chains;
    if c in Chains(start, rules + [rule], s, x) {
      ChainSplits(start, rules, rule, s, x, c);
      var k, d, ms :| d in Chains(start, rules, k, x) && Moves(rule, k, s, ms) && c == Combine(ms, d);
      assert ms == PLAIN ==> c == d;
    }
    if (rule.apply(s).None? || !rule.deletion) && c in Chains(start, rules, s, x) {
      ChainExtends(start, rules, rule, s, s, x, PLAIN, c);
      assert Combine(PLAIN, c) == c;
    }
    if k, d :| d in Chains(start, rules, k, x) && Rewritten(rule, k, d, s, c) {
      ChainExtends(start, rules, rule, k, s, x, rule.apply(k).value.sort, d);
    }
  }

  /** A spelling is in the script after one more rule just when the rule yields it for one that was there before. */
  lemma PresentNextExactly(start: Lists, rules: seq<Rule>, rule: Rule, lists: Lists, k: string)
    requires Exact(start, rules + [rule], lists)
    ensures k in lists <==> exists j :: Present(start, rules, j) && Yields(rule, j, k)
  {
    PresentExactly(start, rules + [rule], lists, k);
    hide Exact, Present, Yields;
    if Present(start, rules + [rule], k) {
      var j := YieldedFrom(start, rules, rule, k);
    }
    if j :| Present(start, rules, j) && Yields(rule, j, k) {
      YieldIsPresent(start, rules, rule, j, k);
    }
  }

  lemma YieldedFrom(start: Lists, rules: seq<Rule>, rule: Rule, k: string) returns (j: string)
    requires Present(start, rules + [rule], k)
    ensures Present(start, rules, j) && Yields(rule, j, k)
  {
    hide Chains;
    var x, c :| c in Chains(start, rules + [rule], k, x);
    hide Present;
    ChainsNextExactly(start, rules, rule, k, x, c);
    if (rule.apply(k).None? || !rule.deletion) && c in Chains(start, rules, k, x) {
      j := k;
    } else {
      var d;
      j, d :| d in Chains(start, rules, j, x) && Rewritten(rule, j, d, k, c);
    }
    PresentBy(start, rules, j, x);
  }

  lemma YieldIsPresent(start: Lists, rules: seq<Rule>, rule: Rule, j: string, k: string)
    requires Present(start, rules, j) && Yields(rule, j, k)
    ensures Present(start, rules + [rule], k)
  {
    hide Chains;
    var x, d :| d in Chains(start, rules, j, x);
    hide Present;
    var c := d;
    if !(j == k && (rule.apply(j).None? || !rule.deletion)) {
      var sort := rule.apply(j).value.sort;
      c := Sort(Worse(d.kind, sort.kind), d.credibility * sort.credibility);
      assert Rewritten(rule, j, d, k, c);
    }
    ChainsNextExactly(start, rules, rule, k, x, c);
    PresentBy(start, rules + [rule], k, x);
  }

  /** So what a deleting rule matches is gone, unless the rule makes it anew. */
  lemma DeletedIsGone(start: Lists, rules: seq<Rule>, rule: Rule, lists: Lists, k: string)
    requires Exact(start, rules + [rule], lists) && rule.deletion && rule.apply(k).Some?
    requires forall j :: rule.apply(j).Some? ==> rule.apply(j).value.str != k
    ensures k !in lists
  {
    hide Exact, Present;
    PresentNextExactly(start, rules, rule, lists, k);
  }

  /** One more round takes the exact script for some rules to the exact script for one rule more. */
  lemma ExactNext(start: Lists, rules: seq<Rule>, a: Lists, rule: Rule, out: Lists)
    requires Exact(start, rules, a) && NonNegative(rule) && RoundOf(a, rule, a.Keys, out)
    ensures Exact(start, rules + [rule], out)
  {
    forall s, x
      ensures Summarizes(EntryOf(Lookup(out, s), x), Chains(start, rules + [rule], s, x))
    {
      SummaryNext(start, rules, a, rule, EntryOf(Lookup(out, s), x), s, x);
    }
  }

  lemma SummaryNext(start: Lists, rules: seq<Rule>, a: Lists, rule: Rule, z: Option<Sort>, s: string, x: string)
    requires Exact(start, rules, a) && NonNegative(rule) && Summarizes(z, Contributed(a, rule, a.Keys, s, x))
    ensures Summarizes(z, Chains(start, rules + [rule], s, x))
  {
    hide Exact, NonNegative, Chains, Moves, Contributed, Combine;
    var cs := Chains(start, rules + [rule], s, x);
    var ys := Contributed(a, rule, a.Keys, s, x);
    forall c | c in cs
      ensures exists y :: y in ys && Covers(y, c)
    {
      ChainSplits(start, rules, rule, s, x, c);
      var k, d, ms :| d in Chains(start, rules, k, x) && Moves(rule, k, s, ms) && c == Combine(ms, d);
      ChainCovered(start, rules, a, rule, k, s, x, ms, d);
    }
    if z.Some? {
      var y :| y in ys && y.kind == z.value.kind;
      var w :| w in ys && w.credibility == z.value.credibility;
      ContributionAttained(start, rules, a, rule, s, x, y);
      ContributionAttained(start, rules, a, rule, s, x, w);
    }
  }

  // ---------- the projection ----------

  /** One round: rewrites every spelling of a script into a new one. */
  method ApplyRule(rule: Rule, a: Lists) returns (out: Lists, applied: bool)
    requires Tidy(a)
    ensures RoundOf(a, rule, a.Keys, out)
    ensures forall k :: k in out <==> exists j :: j in a && Yields(rule, j, k)
    ensures applied <==> exists k :: k in a && rule.apply(k).Some?
  {
    var temp := new Script();
    applied := false;
    var todo := a.Keys;
    RoundAtStart(a, rule);
    assert a.Keys - todo == {};
    hide RoundOf, Tidy, MergeAll;
    while todo != {}
      invariant todo <= a.Keys && fresh(temp)
      invariant RoundOf(a, rule, a.Keys - todo, temp.lists)
      invariant applied <==> exists k :: k in a && k !in todo && rule.apply(k).Some?
      decreases todo
    {
      var k := Pick(todo);
      RoundNext(a, rule, a.Keys - todo, temp.lists, k);
      assert a.Keys - todo + {k} == a.Keys - (todo - {k});
      todo := todo - {k};
      match rule.apply(k) {
        case Some(s) =>
          applied := true;
          if !rule.deletion {
            temp.Merge(k, PLAIN, a[k]);
          }
          if rule.addition && s.str != "" {
            temp.Merge(s.str, s.sort, a[k]);
          }
        case None =>
          temp.Merge(k, PLAIN, a[k]);
      }
    }
    assert a.Keys - todo == a.Keys;
    out := temp.lists;
    forall k
      ensures k in out <==> exists j :: j in a && Yields(rule, j, k)
    {
      RoundKeys(a, rule, out, k);
    }
  }

  /** The spellings after a round are those that something leads to. */
  lemma RoundKeys(a: Lists, rule: Rule, out: Lists, k: string)
    requires Tidy(a) && RoundOf(a, rule, a.Keys, out)
    ensures k in out <==> exists j :: j in a && Yields(rule, j, k)
  {
    hide Distinct;
    if k in out {
      var e := out[k][0];
      FindFirst(out[k]);
      assert Summarizes(EntryOf(Lookup(out, k), e.str), Contributed(a, rule, a.Keys, k, e.str));
      var j, d, ms :| j in a && d in a[j] && d.str == e.str && Moves(rule, j, k, ms);
      assert Yields(rule, j, k);
    }
    if j :| j in a && Yields(rule, j, k) {
      var d := a[j][0];
      var ms := if j == k && (rule.apply(j).None? || !rule.deletion) then PLAIN else rule.apply(j).value.sort;
      assert Moves(rule, j, k, ms) && d in a[j];
      assert Combine(ms, d.sort) in Contributed(a, rule, a.Keys, k, d.str);
      assert Summarizes(EntryOf(Lookup(out, k), d.str), Contributed(a, rule, a.Keys, k, d.str));
    }
  }

  lemma FindFirst(m: seq<Spelling>)
    requires m != []
    ensures EntryOf(m, m[0].str).Some?
  {
  }

  lemma RoundAtStart(a: Lists, rule: Rule)
    ensures RoundOf(a, rule, {}, map[])
  {
  }

  /** Some chain of the first rules ends at spelling `k`. */
  ghost predicate Present(start: Lists, rules: seq<Rule>, k: string) {
    exists x :: Chains(start, rules, k, x) != iset{}
  }

  lemma PresentExactly(start: Lists, rules: seq<Rule>, lists: Lists, k: string)
    requires Exact(start, rules, lists)
    ensures k in lists <==> Present(start, rules, k)
  {
    if k in lists {
      var e := lists[k][0];
      DistinctEntry(lists[k], e);
      assert Summarizes(EntryOf(Lookup(lists, k), e.str), Chains(start, rules, k, e.str));
    }
    if Present(start, rules, k) {
      var x :| Chains(start, rules, k, x) != iset{};
      assert Summarizes(EntryOf(Lookup(lists, k), x), Chains(start, rules, k, x));
    }
  }

  /** The rule applies to some spelling that is there when its turn comes. */
  ghost predicate Fires(start: Lists, rules: seq<Rule>, i: nat)
    requires i < |rules|
  {
    exists k :: Present(start, rules[..i], k) && rules[i].apply(k).Some?
  }

  class Projection {
    var calculation: seq<Rule>

    constructor (rules: seq<Rule>)
      ensures calculation == rules
    {
      calculation := rules;
    }

    /** Applies one rule to a script. */
    method Round(script: Script, n: nat, ghost start: Lists) returns (applied: bool)
      requires n < |calculation| && NonNegative(calculation[n]) && Exact(start, calculation[..n], script.lists)
      modifies script
      ensures Exact(start, calculation[..n + 1], script.lists)
      ensures applied <==> Fires(start, calculation, n)
    {
      hide Exact, Tidy, NonNegative, RoundOf, Fires;
      ExactIsTidy(start, calculation[..n], script.lists);
      FiresExactly(start, calculation, n, script.lists);
      var out;
      out, applied := ApplyRule(calculation[n], script.lists);
      ExactNext(start, calculation[..n], script.lists, calculation[n], out);
      assert calculation[..n + 1] == calculation[..n] + [calculation[n]];
      script.lists := out;
    }

    /** Applies all the rules to a script, in turn. */
    method Apply(script: Script) returns (modified: bool)
      requires Tidy(script.lists) && forall i :: 0 <= i < |calculation| ==> NonNegative(calculation[i])
      modifies script
      ensures Exact(old(script.lists), calculation, script.lists)
      ensures modified <==> exists i :: 0 <= i < |calculation| && Fires(old(script.lists), calculation, i)
    {
      ghost var start := script.lists;
      hide Exact, Tidy, NonNegative, Fires;
      if script.lists == map[] {
        NothingFromNothing(calculation);
        return false;
      }
      modified := false;
      ExactAtStart(start);
      assert calculation[..0] == [];
      for n := 0 to |calculation|
        invariant Exact(start, calculation[..n], script.lists) && calculation == old(calculation)
        invariant modified <==> exists i :: 0 <= i < n && Fires(start, calculation, i)
      {
        var applied := Round(script, n, start);
        modified := modified || applied;
      }
      assert calculation[..|calculation|] == calculation;
    }
  }

  lemma ExactIsTidy(start: Lists, rules: seq<Rule>, lists: Lists)
    requires Exact(start, rules, lists)
    ensures Tidy(lists)
  {
  }

  lemma FiresExactly(start: Lists, rules: seq<Rule>, n: nat, lists: Lists)
    requires n < |rules| && Exact(start, rules[..n], lists)
    ensures Fires(start, rules, n) <==> exists k :: k in lists && rules[n].apply(k).Some?
  {
    forall k
      ensures k in lists <==> Present(start, rules[..n], k)
    {
      PresentExactly(start, rules[..n], lists, k);
    }
  }

  lemma {:induction false} NoChains(rules: seq<Rule>, s: string, x: string)
    ensures Chains(map[], rules, s, x) == iset{}
    decreases |rules|
  {
    if |rules| > 0 {
      var before := rules[..|rules| - 1];
      forall k
        ensures Chains(map[], before, k, x) == iset{}
      {
        NoChains(before, k, x);
      }
    }
  }

  lemma NothingFromNothing(rules: seq<Rule>)
    ensures Exact(map[], rules, map[])
    ensures forall i :: 0 <= i < |rules| ==> !Fires(map[], rules, i)
  {
    forall s, x
      ensures Summarizes(EntryOf(Lookup(map[], s), x), Chains(map[], rules, s, x))
    {
      NoChains(rules, s, x);
    }
    forall i, k, x | 0 <= i < |rules|
      ensures Chains(map[], rules[..i], k, x) == iset{}
    {
      NoChains(rules[..i], k, x);
    }
  }

  // ---------- what the algebra promises about a syllabary ----------

  /** The script that AddSyllable builds from the syllables. */
  function Syllables(syllabary: set<string>): Lists {
    map x | x in syllabary :: [Spelling(x, PLAIN)]
  }

  /** Whatever the rules, every entry stands for an original syllable. */
  lemma {:induction false} OnlyOriginals(syllabary: set<string>, rules: seq<Rule>, s: string, x: string, c: Sort)
    requires c in Chains(Syllables(syllabary), rules, s, x)
    ensures x in syllabary
    decreases |rules|
  {
    if |rules| > 0 {
      var before, last := rules[..|rules| - 1], rules[|rules| - 1];
      var k, d, ms :| d in Chains(Syllables(syllabary), before, k, x) && Moves(last, k, s, ms) && c == Combine(ms, d);
      OnlyOriginals(syllabary, before, k, x, d);
    }
  }

  ghost predicate AtMostOne(rule: Rule) {
    forall k :: rule.apply(k).Some? ==> 0.0 <= rule.apply(k).value.sort.credibility <= 1.0
  }

  lemma MoveAtMostOne(rule: Rule, k: string, s: string, ms: Sort)
    requires AtMostOne(rule) && Moves(rule, k, s, ms)
    ensures 0.0 <= ms.credibility <= 1.0
  {
  }

  lemma {:induction false} ChainsAtMostOne(syllabary: set<string>, rules: seq<Rule>, s: string, x: string, c: Sort)
    requires forall i :: 0 <= i < |rules| ==> AtMostOne(rules[i])
    requires c in Chains(Syllables(syllabary), rules, s, x)
    ensures 0.0 <= c.credibility <= 1.0
    decreases |rules|
  {
    hide AtMostOne, Moves, Combine;
    if |rules| > 0 {
      var before, last := rules[..|rules| - 1], rules[|rules| - 1];
      var k, d, ms :| d in Chains(Syllables(syllabary), before, k, x) && Moves(last, k, s, ms) && c == Combine(ms, d);
      ChainsAtMostOne(syllabary, before, k, x, d);
      MoveAtMostOne(last, k, s, ms);
      CombineAtMostOne(ms, d);
    }
  }

  lemma CombineAtMostOne(ms: Sort, d: Sort)
    requires 0.0 <= ms.credibility <= 1.0 && 0.0 <= d.credibility <= 1.0
    ensures 0.0 <= Combine(ms, d).credibility <= 1.0
  {
    ProductAtMostOne(d.credibility, ms.credibility);
  }

  lemma ProductNonNegative(a: real, b: real)
    requires a >= 0.0 && b >= 0.0
    ensures a * b >= 0.0
  {
  }

  lemma ProductAtMostOne(a: real, b: real)
    requires 0.0 <= a <= 1.0 && 0.0 <= b <= 1.0
    ensures 0.0 <= a * b <= 1.0
  {
    ProductNonNegative(a, b);
    ProductNonNegative(a, 1.0 - b);
    assert a * (1.0 - b) == a - a * b;
  }

  lemma {:induction false} StayingChain(syllabary: set<string>, rules: seq<Rule>, x: string)
    requires x in syllabary && forall i :: 0 <= i < |rules| ==> !rules[i].deletion
    ensures PLAIN in Chains(Syllables(syllabary), rules, x, x)
    decreases |rules|
  {
    if |rules| > 0 {
      var before, last := rules[..|rules| - 1], rules[|rules| - 1];
      StayingChain(syllabary, before, x);
      assert Moves(last, x, x, PLAIN) && Combine(PLAIN, PLAIN) == PLAIN;
    }
  }

  /** If no rule deletes, every syllable keeps its own spelling, normal and fully credible. */
  lemma KeepsOwnSpelling(syllabary: set<string>, rules: seq<Rule>, lists: Lists, x: string)
    requires Exact(Syllables(syllabary), rules, lists) && x in syllabary
    requires forall i :: 0 <= i < |rules| ==> !rules[i].deletion && AtMostOne(rules[i])
    ensures x in lists && Spelling(x, PLAIN) in lists[x]
  {
    StayingChain(syllabary, rules, x);
    var cs := Chains(Syllables(syllabary), rules, x, x);
    var z := EntryOf(Lookup(lists, x), x);
    hide Chains, AtMostOne, EntryOf, Tidy;
    assert Summarizes(z, cs) && z.Some? && Covers(z.value, PLAIN);
    hide Exact;
    var c :| c in cs && c.credibility == z.value.credibility;
    ChainsAtMostOne(syllabary, rules, x, x, c);
    EntryIsInList(Lookup(lists, x), x);
  }

  lemma SummaryIsUnique(y: Option<Sort>, z: Option<Sort>, cs: iset<Sort>)
    requires Summarizes(y, cs) && Summarizes(z, cs)
    ensures y == z
  {
  }

  /** The order in which the spellings of a script are visited does not matter. */
  lemma OrderDoesNotMatter(start: Lists, rules: seq<Rule>, a: Lists, b: Lists, s: string, x: string)
    requires Exact(start, rules, a) && Exact(start, rules, b)
    ensures (s in a <==> s in b) && EntryOf(Lookup(a, s), x) == EntryOf(Lookup(b, s), x)
  {
    PresentExactly(start, rules, a, s);
    PresentExactly(start, rules, b, s);
    hide Present, Chains, EntryOf;
    SummaryIsUnique(EntryOf(Lookup(a, s), x), EntryOf(Lookup(b, s), x), Chains(start, rules, s, x));
  }

  // ---------- rules that apply to nothing ----------

  ghost predicate NoneFires(start: Lists, rules: seq<Rule>) {
    forall i :: 0 <= i < |rules| ==> !Fires(start, rules, i)
  }

  /** If no rule applies to a spelling that is there, there are no chains but the original entries. */
  lemma {:induction false} UnfiredChains(start: Lists, rules: seq<Rule>, s: string, x: string)
    requires NoneFires(start, rules)
    ensures Chains(start, rules, s, x) == Chains(start, [], s, x)
    decreases |rules|
  {
    if |rules| > 0 {
      hide Present, Combine;
      var before, last := rules[..|rules| - 1], rules[|rules| - 1];
      forall i | 0 <= i < |before|
        ensures !Fires(start, before, i)
      {
        assert before[..i] == rules[..i] && before[i] == rules[i] && !Fires(start, rules, i);
      }
      forall k, d | d in Chains(start, before, k, x)
        ensures last.apply(k).None?
      {
        PresentBy(start, before, k, x);
        assert !Fires(start, rules, |rules| - 1);
      }
      UnfiredChains(start, before, s, x);
      forall c
        ensures c in Chains(start, rules, s, x) <==> c in Chains(start, before, s, x)
      {
        UnfiredChain(start, rules, before, s, x, c);
      }
    }
  }

  lemma PresentBy(start: Lists, rules: seq<Rule>, k: string, x: string)
    requires Chains(start, rules, k, x) != iset{}
    ensures Present(start, rules, k)
  {
  }

  lemma UnfiredChain(start: Lists, rules: seq<Rule>, before: seq<Rule>, s: string, x: string, c: Sort)
    requires |rules| > 0 && before == rules[..|rules| - 1]
    requires forall k, d :: d in Chains(start, before, k, x) ==> rules[|rules| - 1].apply(k).None?
    ensures c in Chains(start, rules, s, x) <==> c in Chains(start, before, s, x)
  {
    var last := rules[|rules| - 1];
    assert Combine(PLAIN, c) == c;
    if c in Chains(start, before, s, x) {
      assert Moves(last, s, s, PLAIN);
    }
    if c in Chains(start, rules, s, x) {
      var k, d, ms :| d in Chains(start, before, k, x) && Moves(last, k, s, ms) && c == Combine(ms, d);
      assert k == s && ms == PLAIN && Combine(PLAIN, d) == d;
    }
  }

  /** The script of a syllabary stays what it was if no rule applies. */
  lemma UnfiredScript(syllabary: set<string>, rules: seq<Rule>, lists: Lists)
    requires Exact(Syllables(syllabary), rules, lists) && NoneFires(Syllables(syllabary), rules)
    ensures lists == Syllables(syllabary)
  {
    var start := Syllables(syllabary);
    forall s, x
      ensures Chains(start, rules, s, x) == Chains(start, [], s, x)
    {
      UnfiredChains(start, rules, s, x);
    }
    ExactAtStart(start);
    assert Exact(start, [], lists);
    hide Exact, Chains, NoneFires;
    forall s
      ensures (s in lists <==> s in start) && (s in lists ==> lists[s] == start[s])
    {
      ExactIsTidy(start, [], lists);
      OrderDoesNotMatter(start, [], lists, start, s, s);
      if s in start {
        forall x
          ensures EntryOf(lists[s], x) == EntryOf([Spelling(s, PLAIN)], x)
        {
          OrderDoesNotMatter(start, [], lists, start, s, x);
        }
        OneEntry(lists[s], Spelling(s, PLAIN));
      }
    }
  }

  /** A list without a second entry for any syllable that answers like a single entry is that entry. */
  lemma OneEntry(m: seq<Spelling>, e: Spelling)
    requires Distinct(m) && forall x :: EntryOf(m, x) == EntryOf([e], x)
    ensures m == [e]
  {
    assert EntryOf([e], e.str) == Some(e.sort);
    EntryIsInList(m, e.str);
    forall i | 0 <= i < |m|
      ensures m[i] == e
    {
      assert m[i] in m;
      DistinctEntry(m, m[i]);
      assert EntryOf([e], m[i].str) == Some(m[i].sort);
    }
    assert |m| > 1 ==> m[0].str != m[1].str;
  }
}
