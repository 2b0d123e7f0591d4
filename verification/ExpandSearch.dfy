/** Expanding a key: a breadth-first search lists the keys that go on from a prefix, the shortest first. */
module ExpandSearches {
  import opened Orderings
  import opened PrismImages

  // ---------- the order of the answers ----------

  /** Shorter keys come first, and keys of the same length in lexicographic order. */
  predicate Shorter(a: string, b: string) {
    |a| < |b| || (|a| == |b| && Before(a, b))
  }

  lemma ShorterIrreflexive(a: string)
    ensures !Shorter(a, a)
  {
    BeforeIrreflexive(a);
  }

  lemma {:induction false} BeforeExtends(a: string, b: string, x: char, y: char)
    requires |a| == |b| && (Before(a, b) || (a == b && x < y))
    ensures Before(a + [x], b + [y])
  {
    if a != "" {
      if a[0] == b[0] {
        BeforeExtends(a[1..], b[1..], x, y);
      }
      assert (a + [x])[1..] == a[1..] + [x] && (b + [y])[1..] == b[1..] + [y];
    }
  }

  /** Siblings keep the order of the last character, and other children that of their parents. */
  lemma ChildrenKeepOrder(a: string, b: string, x: char, y: char)
    requires Shorter(a, b) || (a == b && x < y)
    ensures Shorter(a + [x], b + [y])
  {
    if |a| == |b| { BeforeExtends(a, b, x, y); }
  }

  ghost predicate Ascends(ks: seq<string>) {
    forall i, j :: 0 <= i < j < |ks| ==> Shorter(ks[i], ks[j])
  }

  ghost predicate AscendingChars(s: string) {
    forall i, j :: 0 <= i < j < |s| ==> s[i] < s[j]
  }

  // ---------- the nodes of the trie ----------

  /** The path of `p` exists in the trie: some key goes on from it. */
  ghost predicate Path(keys: seq<string>, p: string) {
    p == "" || exists i :: 0 <= i < |keys| && p <= keys[i]
  }

  /** A trie to search, where to start, and with which characters to go on. */
  datatype Quest = Quest(img: Image, alphabet: string, prefix: string) {

    /** `k` goes on from the prefix with characters of the alphabet. */
    predicate Extends(k: string) {
      prefix <= k && forall i :: |prefix| <= i < |k| ==> k[i] in alphabet
    }

    ghost predicate Node(k: string) {
      Extends(k) && Path(img.keys, k)
    }

    /** A key that is asked for. */
    predicate Wanted(k: string) {
      Extends(k) && k in img.keys
    }
  }

  // ---------- the search ----------

  /** The `c`th child of the `i`th node seen is yet to come, when the `h`th node is being expanded with the `ci`th
      character. */
  predicate ToCome(h: nat, ci: nat, i: nat, c: nat) {
    i > h || (i == h && c >= ci)
  }

  function Child(q: Quest, seen: seq<string>, i: nat, c: nat): string
    requires i < |seen| && c < |q.alphabet|
  {
    seen[i] + [q.alphabet[c]]
  }

  /** The nodes seen are in order, start with the prefix, and come before all children that are yet to come. */
  ghost predicate Ordered(q: Quest, seen: seq<string>, h: nat, ci: nat) {
    && Ascends(seen) && seen != [] && seen[0] == q.prefix
    && (forall i: nat, c: nat, k :: i < |seen| && c < |q.alphabet| && ToCome(h, ci, i, c) && k in seen
          ==> Shorter(k, Child(q, seen, i, c)))
  }

  /** The nodes seen are nodes, and the children that were due have been seen. */
  ghost predicate Complete(q: Quest, seen: seq<string>, h: nat, ci: nat) {
    && (forall k :: k in seen ==> q.Node(k))
    && (forall i: nat, c: nat :: i < |seen| && c < |q.alphabet| && !ToCome(h, ci, i, c) ==>
          Path(q.img.keys, Child(q, seen, i, c)) ==> Child(q, seen, i, c) in seen)
  }

  ghost predicate Searching(q: Quest, seen: seq<string>, h: nat, ci: nat) {
    h <= |seen| && ci <= |q.alphabet| && Ordered(q, seen, h, ci) && Complete(q, seen, h, ci)
  }

  lemma SearchStarts(q: Quest)
    requires Path(q.img.keys, q.prefix)
    ensures Searching(q, [q.prefix], 0, 0)
  {
  }

  lemma NextNode(q: Quest, seen: seq<string>, h: nat)
    requires Searching(q, seen, h, |q.alphabet|) && h < |seen|
    ensures Searching(q, seen, h + 1, 0)
  {
  }

  lemma NoChild(q: Quest, seen: seq<string>, h: nat, ci: nat)
    requires Searching(q, seen, h, ci) && h < |seen| && ci < |q.alphabet|
    requires !Path(q.img.keys, Child(q, seen, h, ci))
    ensures Searching(q, seen, h, ci + 1)
  {
  }

  lemma NewChild(q: Quest, seen: seq<string>, h: nat, ci: nat)
    requires Searching(q, seen, h, ci) && h < |seen| && ci < |q.alphabet| && AscendingChars(q.alphabet)
    requires Path(q.img.keys, Child(q, seen, h, ci))
    ensures Searching(q, seen + [Child(q, seen, h, ci)], h, ci + 1)
  {
    NewChildOrdered(q, seen, h, ci);
    NewChildComplete(q, seen, h, ci);
  }

  lemma NewChildOrdered(q: Quest, seen: seq<string>, h: nat, ci: nat)
    requires Ordered(q, seen, h, ci) && h < |seen| && ci < |q.alphabet| && AscendingChars(q.alphabet)
    ensures Ordered(q, seen + [Child(q, seen, h, ci)], h, ci + 1)
  {
    var child := Child(q, seen, h, ci);
    var out := seen + [child];
    forall k | k in seen ensures Shorter(k, child) {
      assert ToCome(h, ci, h, ci);
    }
    forall i: nat, c: nat, k | i < |out| && c < |q.alphabet| && ToCome(h, ci + 1, i, c) && k in out
      ensures Shorter(k, Child(q, out, i, c))
    {
      if i == |seen| {
        assert |Child(q, out, i, c)| == |child| + 1;
      } else if k == child {
        ChildrenKeepOrder(seen[h], seen[i], q.alphabet[ci], q.alphabet[c]);
      } else {
        assert ToCome(h, ci, i, c) && Child(q, out, i, c) == Child(q, seen, i, c);
      }
    }
  }

  lemma NewChildComplete(q: Quest, seen: seq<string>, h: nat, ci: nat)
    requires Complete(q, seen, h, ci) && h < |seen| && ci < |q.alphabet|
    requires Path(q.img.keys, Child(q, seen, h, ci))
    ensures Complete(q, seen + [Child(q, seen, h, ci)], h, ci + 1)
  {
    var child := Child(q, seen, h, ci);
    var out := seen + [child];
    assert q.Node(child) by {
      assert q.Node(seen[h]);
    }
    forall i: nat, c: nat | i < |out| && c < |q.alphabet| && !ToCome(h, ci + 1, i, c)
      && Path(q.img.keys, Child(q, out, i, c))
      ensures Child(q, out, i, c) in out
    {
      if !(i == h && c == ci) {
        assert !ToCome(h, ci, i, c) && Child(q, out, i, c) == Child(q, seen, i, c);
      }
    }
  }

  // ---------- what has been found ----------

  /** The keys among the nodes. */
  function Found(img: Image, seen: seq<string>): seq<string> {
    if seen == [] then [] else
      var last := seen[|seen| - 1];
      Found(img, seen[..|seen| - 1]) + if last in img.keys then [last] else []
  }

  function MatchesOf(img: Image, found: seq<string>): seq<Match>
    requires forall k :: k in found ==> k in img.keys
  {
    seq(|found|, i requires 0 <= i < |found| => Match(img.Rank(found[i]), |found[i]|))
  }

  /** `found` is the first part of the wanted keys in order: of all of them without a limit, of as many as the limit
      says otherwise. */
  ghost predicate FirstWanted(q: Quest, found: seq<string>, limit: nat) {
    && Ascends(found) && (forall k :: k in found ==> q.Wanted(k))
    && (forall k, j :: q.Wanted(k) && k !in found && j in found ==> Shorter(j, k))
    && (limit == 0 || |found| < limit ==> forall k :: q.Wanted(k) ==> k in found)
    && (limit > 0 ==> |found| <= limit)
  }

  lemma {:induction false} FoundExactly(img: Image, seen: seq<string>)
    ensures forall k :: k in Found(img, seen) <==> k in seen && k in img.keys
  {
    if seen != [] {
      var front := seen[..|seen| - 1];
      FoundExactly(img, front);
      assert seen == front + [seen[|seen| - 1]];
    }
  }

  lemma AscendsPush(ks: seq<string>, k: string)
    requires Ascends(ks) && forall j :: j in ks ==> Shorter(j, k)
    ensures Ascends(ks + [k])
  {
  }

  lemma {:induction false} FoundAscends(img: Image, seen: seq<string>)
    requires Ascends(seen)
    ensures Ascends(Found(img, seen))
  {
    if seen != [] {
      var front, last := seen[..|seen| - 1], seen[|seen| - 1];
      FoundAscends(img, front);
      FoundExactly(img, front);
      forall k | k in Found(img, front)
        ensures Shorter(k, last)
      {
        var i :| 0 <= i < |front| && front[i] == k;
        assert seen[i] == k;
      }
      AscendsPush(Found(img, front), last);
      hide Shorter;
      assert Found(img, front) + [] == Found(img, front);
    }
  }

  lemma PathOfPrefix(keys: seq<string>, a: string, k: string)
    requires a <= k && k in keys
    ensures Path(keys, a)
  {
  }

  /** A wanted key that has not been seen comes after everything that has been seen. */
  lemma {:induction false} UnseenIsLater(q: Quest, seen: seq<string>, h: nat, ci: nat, k: string, n: nat)
    requires Searching(q, seen, h, ci) && q.Wanted(k) && |q.prefix| <= n <= |k| && k[..n] !in seen
    ensures forall j :: j in seen ==> Shorter(j, k)
    ensures h < |seen|
  {
    assert k[..|q.prefix|] == seen[0];
    if n == |q.prefix| {
    } else if k[..n - 1] !in seen {
      UnseenIsLater(q, seen, h, ci, k, n - 1);
    } else {
      var i :| 0 <= i < |seen| && seen[i] == k[..n - 1];
      var c :| 0 <= c < |q.alphabet| && q.alphabet[c] == k[n - 1];
      assert k[..n] == Child(q, seen, i, c);
      PathOfPrefix(q.img.keys, k[..n], k);
      assert ToCome(h, ci, i, c);
      forall j | j in seen
        ensures Shorter(j, k)
      {
        assert Shorter(j, k[..n]);
        ShorterPrefix(j, k, n);
      }
    }
  }

  lemma ShorterPrefix(j: string, k: string, n: nat)
    requires n <= |k| && Shorter(j, k[..n])
    ensures Shorter(j, k)
  {
    if n == |k| { assert k[..n] == k; }
  }

  /** At any time, what has been found is the first part of the answer; when the queue is empty, all of it. */
  lemma FoundIsFirst(q: Quest, seen: seq<string>, h: nat, ci: nat, limit: nat)
    requires Searching(q, seen, h, ci)
    requires limit > 0 ==> |Found(q.img, seen)| <= limit
    requires h == |seen| || (limit > 0 && |Found(q.img, seen)| == limit)
    ensures FirstWanted(q, Found(q.img, seen), limit)
  {
    hide Searching, Found;
    assert Ascends(seen) && (forall k :: k in seen ==> q.Node(k)) && h <= |seen| by {
      SearchingMeans(q, seen, h, ci);
    }
    FoundExactly(q.img, seen);
    FoundAscends(q.img, seen);
    forall k | q.Wanted(k) && k !in seen
      ensures h < |seen| && forall j :: j in seen ==> Shorter(j, k)
    {
      assert k[..|k|] == k;
      UnseenIsLater(q, seen, h, ci, k, |k|);
    }
  }

  lemma SearchingMeans(q: Quest, seen: seq<string>, h: nat, ci: nat)
    requires Searching(q, seen, h, ci)
    ensures Ascends(seen) && (forall k :: k in seen ==> q.Node(k)) && h <= |seen|
  {
  }

  lemma FoundNext(img: Image, seen: seq<string>, k: string)
    ensures Found(img, seen + [k]) == Found(img, seen) + if k in img.keys then [k] else []
  {
    assert (seen + [k])[..|seen|] == seen;
  }

  // ---------- the search, step by step ----------

  const NO_PATH := -2
  const NO_VALUE := -1

  /** Walks the trie from its root: the value of the key, or whether its path goes on. */
  method Traverse(img: Image, key: string) returns (ret: int)
    ensures ret >= 0 <==> key in img.keys
    ensures key in img.keys ==> ret == img.Rank(key)
    ensures ret == NO_PATH <==> !Path(img.keys, key)
    ensures ret >= NO_PATH
  {
    ret := img.Rank(key);
    if ret != -1 {
      return;
    }
    if key == "" {
      return NO_VALUE;
    }
    for i := 0 to |img.keys|
      invariant forall j :: 0 <= j < i ==> !(key <= img.keys[j])
    {
      if key <= img.keys[i] {
        return NO_VALUE;
      }
    }
    return NO_PATH;
  }

  /** What the search has found is what it gives. */
  ghost predicate Gives(q: Quest, seen: seq<string>, result: seq<Match>) {
    FoundExactly(q.img, seen);
    result == MatchesOf(q.img, Found(q.img, seen))
  }

  lemma GivesNext(q: Quest, seen: seq<string>, result: seq<Match>, k: string)
    requires Gives(q, seen, result)
    ensures k !in q.img.keys ==> Gives(q, seen + [k], result)
    ensures k in q.img.keys ==> Gives(q, seen + [k], result + [Match(q.img.Rank(k), |k|)])
  {
    FoundExactly(q.img, seen);
    FoundExactly(q.img, seen + [k]);
    FoundNext(q.img, seen, k);
  }

  /** Expands one node: its children join the queue. */
  method Expand(q: Quest, limit: nat, queue: seq<string>, result: seq<Match>, ghost seen: seq<string>, ghost h: nat)
    returns (queue': seq<string>, result': seq<Match>, full: bool, ghost seen': seq<string>, ghost ci: nat)
    requires AscendingChars(q.alphabet) && h < |seen| && Searching(q, seen, h, 0) && Gives(q, seen, result)
    requires queue == seen[h..] && (limit > 0 ==> |result| < limit)
    ensures Searching(q, seen', h, ci) && Gives(q, seen', result')
    ensures if full then limit > 0 && |result'| == limit else ci == |q.alphabet| && (limit > 0 ==> |result'| < limit)
    ensures h < |seen'| && seen'[..h + 1] == seen[..h + 1] && queue' == seen'[h + 1..]
  {
    hide Searching, Gives, Path, AscendingChars;
    queue', result', seen', ci := queue[1..], result, seen, 0;
    var node := queue[0];
    var c := 0;
    while c < |q.alphabet|
      invariant c <= |q.alphabet| && h < |seen'| && Searching(q, seen', h, c) && Gives(q, seen', result')
      invariant seen'[..h + 1] == seen[..h + 1] && queue' == seen'[h + 1..] && (limit > 0 ==> |result'| < limit)
    {
      var k := node + [q.alphabet[c]];
      assert seen'[..h + 1][h] == node && k == Child(q, seen', h, c);
      var ret := Traverse(q.img, k);
      if ret <= NO_PATH {
        NoChild(q, seen', h, c);
      } else {
        NewChild(q, seen', h, c);
        GivesNext(q, seen', result', k);
        queue' := queue' + [k];
        seen' := seen' + [k];
        if ret != NO_VALUE {
          result' := result' + [Match(ret, |k|)];
          if limit > 0 && |result'| >= limit {
            return queue', result', true, seen', c + 1;
          }
        }
      }
      c := c + 1;
    }
    full, ci := false, c;
  }

  /** The answer to a search. */
  ghost predicate Answers(q: Quest, limit: nat, result: seq<Match>) {
    exists found: seq<string> :: FirstWanted(q, found, limit) && result == MatchesOf(q.img, found)
  }

  lemma ShorterAntisymmetric(a: string, b: string)
    ensures !(Shorter(a, b) && Shorter(b, a))
  {
    BeforeTotal(a, b);
  }

  /** In an ascending list an element is found at its place only. */
  lemma PlaceInOrder(ks: seq<string>, n: nat, k: string)
    requires Ascends(ks) && n < |ks| && k in ks && k !in ks[..n]
    ensures k == ks[n] || Shorter(ks[n], k)
  {
    assert forall j :: 0 <= j < n ==> ks[j] in ks[..n];
    var i :| 0 <= i < |ks| && ks[i] == k;
  }

  lemma NotBefore(ks: seq<string>, n: nat)
    requires Ascends(ks) && n < |ks|
    ensures ks[n] !in ks[..n]
  {
    ShorterIrreflexive(ks[n]);
  }

  lemma SameNext(q: Quest, f: seq<string>, g: seq<string>, limit: nat, n: nat)
    requires FirstWanted(q, f, limit) && FirstWanted(q, g, limit)
    requires n < |f| && n < |g| && f[..n] == g[..n]
    ensures f[n] == g[n]
  {
    hide Shorter;
    var a, b := f[n], g[n];
    assert a in f && b in g && q.Wanted(a) && q.Wanted(b);
    NotBefore(f, n);
    NotBefore(g, n);
    ShorterAntisymmetric(a, b);
    if a in g {
      PlaceInOrder(g, n, a);
    }
    if b in f {
      PlaceInOrder(f, n, b);
    }
  }

  lemma {:induction false} SameStart(q: Quest, f: seq<string>, g: seq<string>, limit: nat, n: nat)
    requires FirstWanted(q, f, limit) && FirstWanted(q, g, limit) && n <= |f| && n <= |g|
    ensures f[..n] == g[..n]
  {
    if n > 0 {
      SameStart(q, f, g, limit, n - 1);
      SameNext(q, f, g, limit, n - 1);
    }
  }

  lemma NotLonger(q: Quest, f: seq<string>, g: seq<string>, limit: nat)
    requires FirstWanted(q, f, limit) && FirstWanted(q, g, limit)
    ensures |g| <= |f|
  {
    if |f| < |g| {
      assert g[|f|] in g && f[..|f|] == f;
      NotBefore(g, |f|);
      SameStart(q, f, g, limit, |f|);
    }
  }

  /** There is only one answer to a search. */
  lemma AnswerIsUnique(q: Quest, limit: nat, a: seq<Match>, b: seq<Match>)
    requires Answers(q, limit, a) && Answers(q, limit, b)
    ensures a == b
  {
    var f: seq<string> :| FirstWanted(q, f, limit) && a == MatchesOf(q.img, f);
    var g: seq<string> :| FirstWanted(q, g, limit) && b == MatchesOf(q.img, g);
    NotLonger(q, f, g, limit);
    NotLonger(q, g, f, limit);
    SameStart(q, f, g, limit, |f|);
    assert f == f[..|f|] && g == g[..|g|];
  }

  /** A key that goes on from the prefix with characters of the alphabet. */
  ghost predicate GoesOn(q: Quest, k: string) {
    k in q.img.keys && q.prefix <= k && forall i :: |q.prefix| <= i < |k| ==> k[i] in q.alphabet
  }

  /** An answer lists such keys, with their ranks and lengths, and no others: as many as the limit allows, or all. */
  lemma AnswerExactly(q: Quest, limit: nat, result: seq<Match>)
    requires Answers(q, limit, result)
    ensures forall m :: m in result ==> exists k :: GoesOn(q, k) && m == Match(q.img.Rank(k), |k|)
    ensures limit == 0 || |result| < limit ==>
      forall k :: GoesOn(q, k) ==> q.img.Rank(k) >= 0 && Match(q.img.Rank(k), |k|) in result
    ensures limit > 0 ==> |result| <= limit
  {
    var found :| FirstWanted(q, found, limit) && result == MatchesOf(q.img, found);
    hide Shorter, Image.Rank, Ascends;
    forall m | m in result
      ensures exists k :: GoesOn(q, k) && m == Match(q.img.Rank(k), |k|)
    {
      var i :| 0 <= i < |result| && result[i] == m;
      assert found[i] in found && q.Wanted(found[i]) && GoesOn(q, found[i]);
    }
    if limit == 0 || |result| < limit {
      forall k | GoesOn(q, k)
        ensures q.img.Rank(k) >= 0 && Match(q.img.Rank(k), |k|) in result
      {
        assert q.Wanted(k);
        var i :| 0 <= i < |found| && found[i] == k;
        assert result[i] == Match(q.img.Rank(k), |k|);
      }
    }
  }

  /** It lists the shortest keys first, and those of one length in lexicographic order. */
  lemma AnswerInOrder(q: Quest, limit: nat, result: seq<Match>)
    requires Answers(q, limit, result)
    ensures forall m :: m in result ==> m.value < |q.img.keys|
    ensures forall i, j :: 0 <= i < j < |result| ==>
      result[i].length < result[j].length
      || (result[i].length == result[j].length && Before(q.img.keys[result[i].value], q.img.keys[result[j].value]))
  {
    var found :| FirstWanted(q, found, limit) && result == MatchesOf(q.img, found);
    assert forall i :: 0 <= i < |found| ==> found[i] in found;
    hide Image.Rank, Before;
    assert forall i :: 0 <= i < |result| ==> result[i].value < |q.img.keys| && q.img.keys[result[i].value] == found[i];
    forall i, j | 0 <= i < j < |result|
      ensures result[i].length < result[j].length
        || (result[i].length == result[j].length && Before(q.img.keys[result[i].value], q.img.keys[result[j].value]))
    {
      assert Shorter(found[i], found[j]);
    }
  }

  /** What the limit cuts off is not shorter than what is listed. */
  lemma CutIsNotShorter(q: Quest, limit: nat, result: seq<Match>, k: string, m: Match)
    requires Answers(q, limit, result) && GoesOn(q, k) && m in result && |k| < m.length
    ensures q.img.Rank(k) >= 0 && Match(q.img.Rank(k), |k|) in result
  {
    var found :| FirstWanted(q, found, limit) && result == MatchesOf(q.img, found);
    var j :| 0 <= j < |result| && result[j] == m;
    assert q.Wanted(k) && found[j] in found && !Shorter(found[j], k);
    var i :| 0 <= i < |found| && found[i] == k;
    assert result[i] == Match(q.img.Rank(k), |k|);
  }

  lemma GivesAnswers(q: Quest, seen: seq<string>, h: nat, ci: nat, limit: nat, result: seq<Match>)
    requires Searching(q, seen, h, ci) && Gives(q, seen, result)
    requires limit > 0 ==> |result| <= limit
    requires h == |seen| || (limit > 0 && |result| == limit)
    ensures Answers(q, limit, result)
  {
    hide Searching;
    FoundIsFirst(q, seen, h, ci, limit);
  }

  lemma NothingToFind(q: Quest, limit: nat)
    requires !Path(q.img.keys, q.prefix)
    ensures Answers(q, limit, [])
  {
    assert forall k :: !q.Wanted(k);
    assert FirstWanted(q, [], limit);
  }

  /** Everything that can ever be seen. */
  ghost function Universe(q: Quest): set<string> {
    {q.prefix, ""} + set i, n | 0 <= i < |q.img.keys| && 0 <= n <= |q.img.keys[i]| :: q.img.keys[i][..n]
  }

  ghost function Unexpanded(q: Quest, seen: seq<string>, h: nat): set<string>
    requires h <= |seen|
  {
    Universe(q) - set k | k in seen[..h]
  }

  lemma NodeInUniverse(q: Quest, k: string)
    requires q.Node(k)
    ensures k in Universe(q)
  {
    if k != "" {
      var i :| 0 <= i < |q.img.keys| && k <= q.img.keys[i];
      assert q.img.keys[i][..|k|] == k;
    }
  }

  lemma ExpandingUsesUp(q: Quest, seen: seq<string>, h: nat, ci: nat)
    requires Searching(q, seen, h, ci) && h < |seen|
    ensures Unexpanded(q, seen, h + 1) < Unexpanded(q, seen, h)
  {
    var k := seen[h];
    assert q.Node(k);
    NodeInUniverse(q, k);
    assert seen[..h + 1] == seen[..h] + [k];
    ShorterIrreflexive(k);
    assert k !in seen[..h];
    assert k in Unexpanded(q, seen, h) && k !in Unexpanded(q, seen, h + 1);
  }

  /** Lists the keys that extend the prefix, each once, the shortest first, up to the limit if it is positive. */
  method ExpandSearch(q: Quest, limit: nat) returns (result: seq<Match>)
    requires AscendingChars(q.alphabet)
    ensures Answers(q, limit, result)
  {
    hide Searching, Gives, Path, AscendingChars, Answers, Unexpanded;
    result := [];
    var ret := Traverse(q.img, q.prefix);
    if ret == NO_PATH {
      // no key goes on from the prefix
      NothingToFind(q, limit);
      return;
    }
    ghost var seen, h := [q.prefix], 0;
    SearchStarts(q);
    StartGives(q);
    if ret != NO_VALUE {
      result := [Match(ret, |q.prefix|)];
      if limit > 0 && |result| >= limit {
        GivesAnswers(q, seen, h, 0, limit, result);
        return;
      }
    }
    var queue := [q.prefix];
    while queue != []
      invariant h <= |seen| && Searching(q, seen, h, 0) && Gives(q, seen, result) && queue == seen[h..]
      invariant limit > 0 ==> |result| < limit
      decreases Unexpanded(q, seen, h)
    {
      ghost var ci;
      ghost var before := seen;
      var full;
      queue, result, full, seen, ci := Expand(q, limit, queue, result, seen, h);
      if full {
        GivesAnswers(q, seen, h, ci, limit, result);
        return;
      }
      NextNode(q, seen, h);
      ExpandingUsesUp(q, seen, h, ci);
      SameUnexpanded(q, before, seen, h);
      h := h + 1;
    }
    GivesAnswers(q, seen, h, 0, limit, result);
  }

  lemma StartGives(q: Quest)
    ensures q.prefix !in q.img.keys ==> Gives(q, [q.prefix], [])
    ensures q.prefix in q.img.keys ==> Gives(q, [q.prefix], [Match(q.img.Rank(q.prefix), |q.prefix|)])
  {
    GivesNext(q, [], [], q.prefix);
    assert [] + [q.prefix] == [q.prefix];
  }

  lemma SameUnexpanded(q: Quest, before: seq<string>, seen: seq<string>, h: nat)
    requires h < |before| && h < |seen| && seen[..h + 1] == before[..h + 1]
    ensures Unexpanded(q, seen, h) == Unexpanded(q, before, h)
  {
    assert seen[..h] == seen[..h + 1][..h] && before[..h] == before[..h + 1][..h];
  }
}
