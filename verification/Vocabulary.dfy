/** The vocabulary: a trie of limited depth that holds the entries of the dictionary by their codes. */
module Vocabularies {
  import opened Spellings
  import opened Orderings
  import opened EntryCollectors
  import opened Prisms

  type Code = seq<int>

  const INDEX_CODE_MAX_LENGTH := 3

  datatype DictEntry = DictEntry(code: Code, text: string, weight: real)

  datatype Page = Page(entries: seq<DictEntry>, nextLevel: Option<Tree>)

  datatype Tree = Tree(pages: map<int, Page>)

  const EMPTY := Tree(map[])

  // ---------- the order of codes ----------

  predicate AgreeUpTo(a: Code, b: Code, n: nat)
    requires n <= |a| && n <= |b|
  {
    forall k :: 0 <= k < n ==> a[k] == b[k]
  }

  /** Shorter codes come first, and codes of the same length in lexicographic order. */
  predicate CodeLess(a: Code, b: Code) {
    |a| < |b| || (|a| == |b| && exists i :: 0 <= i < |a| && AgreeUpTo(a, b, i) && a[i] < b[i])
  }

  method CompareCodes(a: Code, b: Code) returns (less: bool)
    ensures less <==> CodeLess(a, b)
  {
    if |a| != |b| {
      return |a| < |b|;
    }
    for i := 0 to |a|
      invariant AgreeUpTo(a, b, i)
    {
      if a[i] != b[i] {
        FirstDifference(a, b, i);
        return a[i] < b[i];
      }
    }
    less := false;
  }

  lemma FirstDifference(a: Code, b: Code, i: nat)
    requires |a| == |b| && i < |a| && AgreeUpTo(a, b, i) && a[i] != b[i]
    ensures CodeLess(a, b) <==> a[i] < b[i]
  {
  }

  /** The order of codes is strict and total. */
  lemma CodeOrderTotal(a: Code, b: Code)
    ensures a == b || CodeLess(a, b) || CodeLess(b, a)
    ensures !(CodeLess(a, b) && CodeLess(b, a)) && !CodeLess(a, a)
  {
    if |a| == |b| && a != b {
      var i := Difference(a, b);
      FirstDifference(a, b, i);
      FirstDifference(b, a, i);
    }
  }

  lemma Difference(a: Code, b: Code) returns (i: nat)
    requires |a| == |b| && a != b
    ensures i < |a| && AgreeUpTo(a, b, i) && a[i] != b[i]
  {
    i := 0;
    while i < |a| && a[i] == b[i]
      invariant i <= |a| && AgreeUpTo(a, b, i)
    {
      i := i + 1;
    }
  }

  /** Shorter codes come first; codes of one length go by the first id in which they differ. */
  lemma CodeOrderExactly(p: Code, x: int, y: int, u: Code, v: Code)
    requires |u| == |v|
    ensures forall a, b: Code :: |a| < |b| ==> CodeLess(a, b) && !CodeLess(b, a)
    ensures CodeLess(p + [x] + u, p + [y] + v) <==> x < y || (x == y && CodeLess(u, v))
  {
    var a, b := p + [x] + u, p + [y] + v;
    if x == y {
      CommonFront(p + [x], u, v);
    } else {
      assert a[|p|] == x && b[|p|] == y && AgreeUpTo(a, b, |p|);
      assert forall i :: |p| < i < |a| ==> !AgreeUpTo(a, b, i);
    }
  }

  lemma CommonFront(c: Code, u: Code, v: Code)
    requires |u| == |v|
    ensures CodeLess(c + u, c + v) <==> CodeLess(u, v)
  {
    var a, b := c + u, c + v;
    forall i | 0 <= i < |u|
      ensures a[|c| + i] == u[i] && b[|c| + i] == v[i] && (AgreeUpTo(a, b, |c| + i) <==> AgreeUpTo(u, v, i))
    {
      FrontAgrees(c, u, v, i);
    }
    if CodeLess(a, b) {
      var i :| 0 <= i < |a| && AgreeUpTo(a, b, i) && a[i] < b[i];
      assert i >= |c| && 0 <= i - |c| < |u| && AgreeUpTo(u, v, i - |c|);
    }
    if CodeLess(u, v) {
      var i :| 0 <= i < |u| && AgreeUpTo(u, v, i) && u[i] < v[i];
      assert AgreeUpTo(a, b, |c| + i);
    }
  }

  lemma FrontAgrees(c: Code, u: Code, v: Code, i: nat)
    requires |u| == |v| && i < |u|
    ensures (c + u)[|c| + i] == u[i] && (c + v)[|c| + i] == v[i]
    ensures AgreeUpTo(c + u, c + v, |c| + i) <==> AgreeUpTo(u, v, i)
  {
    if AgreeUpTo(c + u, c + v, |c| + i) {
      forall k | 0 <= k < i
        ensures u[k] == v[k]
      {
        assert (c + u)[|c| + k] == (c + v)[|c| + k];
      }
    }
  }

  // ---------- where the entries of a code are ----------

  /** The keys on the way to the entries of a code: its first ids, and -1 for all that come after them. */
  function Path(code: Code): seq<int> {
    if |code| <= INDEX_CODE_MAX_LENGTH then code else code[..INDEX_CODE_MAX_LENGTH] + [-1]
  }

  /** The codes are the same, or both too long to be told apart. */
  predicate SameList(a: Code, b: Code) {
    a == b || (|a| > 3 && |b| > 3 && a[..3] == b[..3])
  }

  lemma SameListExactly(a: Code, b: Code)
    ensures Path(a) == Path(b) <==> SameList(a, b)
  {
    if |a| > INDEX_CODE_MAX_LENGTH && |b| > INDEX_CODE_MAX_LENGTH {
      assert Path(a)[..INDEX_CODE_MAX_LENGTH] == a[..INDEX_CODE_MAX_LENGTH];
      assert Path(b)[..INDEX_CODE_MAX_LENGTH] == b[..INDEX_CODE_MAX_LENGTH];
    }
  }

  function PageAt(t: Tree, key: int): Page {
    if key in t.pages then t.pages[key] else Page([], None)
  }

  function Next(p: Page): Tree {
    if p.nextLevel.Some? then p.nextLevel.value else EMPTY
  }

  /** The list of entries at the end of a path; where there is no page, it is empty. */
  function Entries(t: Tree, path: seq<int>): seq<DictEntry>
    decreases |path|
  {
    if path == [] then []
    else if |path| == 1 then PageAt(t, path[0]).entries
    else Entries(Next(PageAt(t, path[0])), path[1..])
  }

  /** The pages on the way are created. */
  function Create(t: Tree, path: seq<int>): Tree
    decreases |path|
  {
    if path == [] then t else
      var page := PageAt(t, path[0]);
      if |path| == 1 then Tree(t.pages[path[0] := page])
      else Tree(t.pages[path[0] := page.(nextLevel := Some(Create(Next(page), path[1..])))])
  }

  predicate HasPage(t: Tree, path: seq<int>)
    decreases |path|
  {
    path != [] && path[0] in t.pages
    && (|path| == 1 || (t.pages[path[0]].nextLevel.Some? && HasPage(t.pages[path[0]].nextLevel.value, path[1..])))
  }

  /** The list at the end of the path is replaced. */
  function Replace(t: Tree, path: seq<int>, list: seq<DictEntry>): Tree
    requires HasPage(t, path)
    decreases |path|
  {
    var page := t.pages[path[0]];
    if |path| == 1 then Tree(t.pages[path[0] := page.(entries := list)])
    else Tree(t.pages[path[0] := page.(nextLevel := Some(Replace(page.nextLevel.value, path[1..], list)))])
  }

  /** Creating pages makes a place for the entries, and disturbs no list. */
  lemma {:induction false} CreateKeeps(t: Tree, path: seq<int>, q: seq<int>)
    ensures Entries(Create(t, path), q) == Entries(t, q)
    ensures path != [] ==> HasPage(Create(t, path), path)
    decreases |path|
  {
    if |path| > 1 {
      CreateKeeps(Next(PageAt(t, path[0])), path[1..], q[if q == [] then 0 else 1..]);
    }
  }

  /** Replacing a list disturbs no other list. */
  lemma {:induction false} ReplaceKeeps(t: Tree, path: seq<int>, list: seq<DictEntry>, q: seq<int>)
    requires HasPage(t, path)
    ensures Entries(Replace(t, path, list), q) == if q == path then list else Entries(t, q)
    decreases |path|
  {
    if |path| > 1 && |q| > 0 {
      ReplaceKeeps(t.pages[path[0]].nextLevel.value, path[1..], list, q[1..]);
      assert path == [path[0]] + path[1..] && q == [q[0]] + q[1..];
    } else {
      assert |path| == 1 ==> path == [path[0]];
      assert |q| == 1 ==> q == [q[0]];
    }
  }

  // ---------- the order of entries ----------

  /** Of the entries that share a code, the ones with more weight come first, and then those with the lesser text. */
  predicate EntryLess(a: DictEntry, b: DictEntry) {
    if a.weight != b.weight then a.weight > b.weight else Before(a.text, b.text)
  }

  ghost predicate Sorted(list: seq<DictEntry>) {
    forall i, j :: 0 <= i < j < |list| ==>
      list[i].weight > list[j].weight
      || (list[i].weight == list[j].weight && !Before(list[j].text, list[i].text))
  }

  ghost predicate InEntryOrder(list: seq<DictEntry>) {
    forall i, j :: 0 <= i < j < |list| ==> !EntryLess(list[j], list[i])
  }

  lemma SortedExactly(list: seq<DictEntry>)
    ensures Sorted(list) <==> InEntryOrder(list)
  {
  }

  lemma EntryOrder(a: DictEntry, b: DictEntry, c: DictEntry)
    ensures !EntryLess(a, b) && !EntryLess(b, c) ==> !EntryLess(a, c)
    ensures EntryLess(a, b) ==> !EntryLess(b, a)
  {
    BeforeTotal(a.text, b.text);
    BeforeTotal(b.text, c.text);
    BeforeTotal(a.text, c.text);
    if Before(c.text, b.text) && Before(b.text, a.text) { BeforeTransitive(c.text, b.text, a.text); }
  }

  function InsertEntry(e: DictEntry, list: seq<DictEntry>): seq<DictEntry> {
    if list == [] || EntryLess(e, list[0]) then [e] + list else [list[0]] + InsertEntry(e, list[1..])
  }

  lemma {:induction false} InsertEntrySorts(e: DictEntry, list: seq<DictEntry>)
    requires InEntryOrder(list)
    ensures InEntryOrder(InsertEntry(e, list)) && multiset(InsertEntry(e, list)) == multiset(list) + multiset{e}
  {
    if list != [] {
      assert list == [list[0]] + list[1..];
      if EntryLess(e, list[0]) {
        forall j | 0 <= j < |list|
          ensures !EntryLess(list[j], e)
        {
          EntryOrder(list[j], list[0], e);
          EntryOrder(e, list[0], e);
        }
      } else {
        InsertEntrySorts(e, list[1..]);
        var rest := InsertEntry(e, list[1..]);
        forall j | 0 <= j < |rest|
          ensures !EntryLess(rest[j], list[0])
        {
          assert rest[j] in multiset(rest);
          assert rest[j] != e ==> rest[j] in list[1..];
        }
      }
    }
  }

  method SortList(list: seq<DictEntry>) returns (r: seq<DictEntry>)
    ensures Sorted(r) && multiset(r) == multiset(list)
  {
    r := [];
    for i := 0 to |list|
      invariant InEntryOrder(r) && multiset(r) == multiset(list[..i])
    {
      InsertEntrySorts(list[i], r);
      r := InsertEntry(list[i], r);
      assert list[..i + 1] == list[..i] + [list[i]];
    }
    assert list[..|list|] == list;
    SortedExactly(r);
  }

  // ---------- sorting at all levels ----------

  /** Each list of `out` is a sorted rearrangement of the same list of `t`. */
  ghost predicate Arranges(t: Tree, out: Tree) {
    forall path :: Sorted(Entries(out, path)) && multiset(Entries(out, path)) == multiset(Entries(t, path))
  }

  ghost predicate ArrangesPage(p: Page, out: Page) {
    && Sorted(out.entries) && multiset(out.entries) == multiset(p.entries)
    && (p.nextLevel.None? <==> out.nextLevel.None?)
    && (p.nextLevel.Some? ==> Arranges(p.nextLevel.value, out.nextLevel.value))
  }

  lemma PagesArrange(t: Tree, out: Tree)
    requires t.pages.Keys == out.pages.Keys
    requires forall k :: k in t.pages ==> ArrangesPage(t.pages[k], out.pages[k])
    ensures Arranges(t, out)
  {
    forall path
      ensures Sorted(Entries(out, path)) && multiset(Entries(out, path)) == multiset(Entries(t, path))
    {
      if path != [] {
        PathArranges(t, out, path, path[0]);
      }
    }
  }

  lemma PathArranges(t: Tree, out: Tree, path: seq<int>, key: int)
    requires path != [] && key == path[0] && (key in t.pages <==> key in out.pages)
    requires key in t.pages ==> ArrangesPage(t.pages[key], out.pages[key])
    ensures Sorted(Entries(out, path)) && multiset(Entries(out, path)) == multiset(Entries(t, path))
  {
    if |path| > 1 {
      NoEntries(path[1..]);
    }
  }

  lemma {:induction false} NoEntries(path: seq<int>)
    ensures Entries(EMPTY, path) == []
  {
    if |path| > 1 { NoEntries(path[1..]); }
  }

  method SortPage(p: Page) returns (out: Page)
    ensures ArrangesPage(p, out)
    decreases p
  {
    var entries := SortList(p.entries);
    var nextLevel := None;
    if p.nextLevel.Some? {
      var sorted := SortTree(p.nextLevel.value);
      nextLevel := Some(sorted);
    }
    out := Page(entries, nextLevel);
  }

  method SortTree(t: Tree) returns (out: Tree)
    ensures Arranges(t, out)
    decreases t
  {
    hide ArrangesPage;
    var pages := t.pages;
    var todo := t.pages.Keys;
    while todo != {}
      invariant todo <= t.pages.Keys == pages.Keys
      invariant forall k :: k in t.pages && k in todo ==> pages[k] == t.pages[k]
      invariant forall k :: k in t.pages && k !in todo ==> ArrangesPage(t.pages[k], pages[k])
      decreases todo
    {
      var key := Pick(todo);
      var page := SortPage(t.pages[key]);
      pages := pages[key := page];
      todo := todo - {key};
    }
    out := Tree(pages);
    PagesArrange(t, out);
  }

  // ---------- the vocabulary, updated in place ----------

  lemma {:induction false} CreateOnwards(t: Tree, path: seq<int>, n: nat)
    requires n <= |path|
    ensures Create(Create(t, path[..n]), path) == Create(t, path)
    decreases |path|
  {
    if n > 0 && |path| > 1 {
      assert path[..n][1..] == path[1..][..n - 1];
      CreateOnwards(Next(PageAt(t, path[0])), path[1..], n - 1);
      if n == 1 {
        assert path[..1] == [path[0]];
      }
    } else {
      assert n == |path| ==> path[..n] == path;
    }
  }

  class Vocabulary {
    var root: Tree

    constructor ()
      ensures root == EMPTY
    {
      root := EMPTY;
    }

    /** Where the entries of a code are; the way to them is created if need be. An empty code has no place. */
    method LocateEntries(code: Code) returns (place: Option<seq<int>>)
      modifies this
      ensures place == if code == [] then None else Some(Path(code))
      ensures root == if code == [] then old(root) else Create(old(root), Path(code))
    {
      ghost var path := Path(code);
      var v := [];
      for i := 0 to |code|
        invariant code != [] ==> i < |code|
        invariant i <= INDEX_CODE_MAX_LENGTH && i <= |path| && v == path[..i]
        invariant root == Create(old(root), v)
      {
        var key := -1;
        if i < INDEX_CODE_MAX_LENGTH {
          key := code[i];
        }
        assert v + [key] == path[..i + 1] && path[..i + 1][..i] == v;
        CreateOnwards(old(root), path[..i + 1], i);
        root := Create(root, v + [key]);
        v := v + [key];
        if i == |code| - 1 || i == INDEX_CODE_MAX_LENGTH {
          assert path[..i + 1] == path;
          return Some(v);
        }
      }
      place := None;
    }

    method PushBack(place: seq<int>, e: DictEntry)
      requires HasPage(root, place)
      modifies this
      ensures forall q :: Entries(root, q) == if q == place then Entries(old(root), q) + [e] else Entries(old(root), q)
    {
      var list := Entries(root, place) + [e];
      forall q
        ensures Entries(Replace(root, place, list), q) == if q == place then list else Entries(root, q)
      {
        ReplaceKeeps(root, place, list, q);
      }
      root := Replace(root, place, list);
    }

    method SortHomophones()
      modifies this
      ensures Arranges(old(root), root)
    {
      root := SortTree(root);
    }
  }

  // ---------- filling the vocabulary ----------

  ghost function CodeOf(syllabary: set<string>, rawCode: seq<string>): Code {
    seq(|rawCode|, i requires 0 <= i < |rawCode| => SyllableId(syllabary, rawCode[i]))
  }

  ghost function EntryOf(syllabary: set<string>, r: RawDictEntry): DictEntry {
    DictEntry(CodeOf(syllabary, r.rawCode), r.text, r.weight)
  }

  /** The entries whose codes lead to `path`, in the order in which they have been collected. */
  ghost function Filed(syllabary: set<string>, entries: seq<RawDictEntry>, path: seq<int>): seq<DictEntry> {
    if entries == [] then [] else
      var e := EntryOf(syllabary, entries[|entries| - 1]);
      Filed(syllabary, entries[..|entries| - 1], path) + Share(e, path)
  }

  function Share(e: DictEntry, path: seq<int>): seq<DictEntry> {
    if e.code != [] && Path(e.code) == path then [e] else []
  }

  /** The list of a code holds the entries with that code, or with one that cannot be told from it, and no others. */
  lemma {:induction false} FiledExactly(syllabary: set<string>, entries: seq<RawDictEntry>, code: Code, e: DictEntry)
    requires code != []
    ensures e in Filed(syllabary, entries, Path(code))
      <==> SameList(e.code, code) && exists r :: r in entries && e == EntryOf(syllabary, r)
  {
    hide SameList, EntryOf, Path;
    if entries != [] {
      var front, last := entries[..|entries| - 1], entries[|entries| - 1];
      FiledExactly(syllabary, front, code, e);
      assert entries == front + [last];
      SameListExactly(EntryOf(syllabary, last).code, code);
      SharesCode(EntryOf(syllabary, last).code, code);
    }
  }

  /** The code of an entry has, for each token of its raw code in order, the place of the token in the syllabary. */
  ghost predicate Numbered(syllabary: set<string>, rawCode: seq<string>, code: Code) {
    && |code| == |rawCode|
    && forall i :: 0 <= i < |code| ==>
         0 <= code[i] < |SortedKeys(syllabary)| && SortedKeys(syllabary)[code[i]] == rawCode[i]
  }

  /** Every entry with known tokens is in the list of its code. */
  lemma EntryIsFiled(syllabary: set<string>, entries: seq<RawDictEntry>, r: RawDictEntry, code: Code)
    requires r in entries && r.rawCode != [] && Numbered(syllabary, r.rawCode, code)
    ensures DictEntry(code, r.text, r.weight) in Filed(syllabary, entries, Path(code))
  {
    NumberedIsCode(syllabary, r.rawCode, code);
    FiledExactly(syllabary, entries, code, DictEntry(code, r.text, r.weight));
  }

  /** Every entry of any list comes from one that was collected, and is in the list of its code only. */
  lemma {:induction false} FiledComesFrom(syllabary: set<string>, entries: seq<RawDictEntry>, path: seq<int>,
                                          e: DictEntry)
    requires e in Filed(syllabary, entries, path)
    ensures e.code != [] && path == Path(e.code)
    ensures exists r :: r in entries && e.text == r.text && e.weight == r.weight && |e.code| == |r.rawCode|
              && ((forall t :: t in r.rawCode ==> t in syllabary) ==> Numbered(syllabary, r.rawCode, e.code))
  {
    var front, last := entries[..|entries| - 1], entries[|entries| - 1];
    if e in Filed(syllabary, front, path) {
      FiledComesFrom(syllabary, front, path, e);
    } else {
      assert e == EntryOf(syllabary, last) && last in entries;
    }
  }

  /** The entries of a list are in the order in which they have been collected. */
  lemma {:induction false} FiledInOrder(syllabary: set<string>, a: seq<RawDictEntry>, b: seq<RawDictEntry>,
                                        path: seq<int>)
    ensures Filed(syllabary, a + b, path) == Filed(syllabary, a, path) + Filed(syllabary, b, path)
    decreases |b|
  {
    if b == [] {
      assert a + b == a;
    } else {
      hide Share, EntryOf;
      assert (a + b)[..|a + b| - 1] == a + b[..|b| - 1];
      FiledInOrder(syllabary, a, b[..|b| - 1], path);
    }
  }

  lemma NumberedIsCode(syllabary: set<string>, rawCode: seq<string>, code: Code)
    requires Numbered(syllabary, rawCode, code)
    ensures code == CodeOf(syllabary, rawCode)
  {
    forall i | 0 <= i < |code|
      ensures code[i] == SyllableId(syllabary, rawCode[i])
    {
      RankUnique(SortedKeys(syllabary), code[i]);
      assert rawCode[i] in SortedKeys(syllabary);
    }
  }

  lemma SharesCode(a: Code, b: Code)
    ensures b != [] && SameList(a, b) ==> a != []
  {
  }

  method NumberCode(ghost syllabary: set<string>, syllableToId: map<string, int>, rawCode: seq<string>)
    returns (code: Code)
    requires Numbers(syllabary, syllableToId)
    ensures code == CodeOf(syllabary, rawCode)
  {
    code := [];
    for i := 0 to |rawCode|
      invariant code == CodeOf(syllabary, rawCode)[..i]
    {
      code := code + [if rawCode[i] in syllableToId then syllableToId[rawCode[i]] else 0];
    }
  }

  /** Files all entries, and sorts the lists unless the original order is asked for. */
  method FillVocabulary(syllabary: set<string>, entries: seq<RawDictEntry>, sortOrder: string)
    returns (vocabulary: Vocabulary)
    ensures sortOrder == "original" ==> forall path :: Entries(vocabulary.root, path) == Filed(syllabary, entries, path)
    ensures sortOrder != "original" ==> forall path ::
      Sorted(Entries(vocabulary.root, path))
      && multiset(Entries(vocabulary.root, path)) == multiset(Filed(syllabary, entries, path))
  {
    hide Sorted, SyllableId, CodeOf;
    var syllableToId := NumberSyllables(syllabary);
    vocabulary := new Vocabulary();
    forall path ensures Entries(EMPTY, path) == Filed(syllabary, entries[..0], path) {
      NoEntries(path);
    }
    for n := 0 to |entries|
      invariant forall path :: Entries(vocabulary.root, path) == Filed(syllabary, entries[..n], path)
    {
      var code := NumberCode(syllabary, syllableToId, entries[n].rawCode);
      FileOne(syllabary, entries, n, vocabulary.root, code);
      var place := vocabulary.LocateEntries(code);
      if place.Some? {
        vocabulary.PushBack(place.value, DictEntry(code, entries[n].text, entries[n].weight));
      }
    }
    assert entries[..|entries|] == entries;
    if sortOrder != "original" {
      vocabulary.SortHomophones();
    }
  }

  lemma FileOne(syllabary: set<string>, entries: seq<RawDictEntry>, n: nat, root: Tree, code: Code)
    requires n < |entries| && code == CodeOf(syllabary, entries[n].rawCode)
    ensures code != [] ==> HasPage(Create(root, Path(code)), Path(code))
    ensures forall path :: Entries(Create(root, Path(code)), path) == Entries(root, path)
    ensures var e := DictEntry(code, entries[n].text, entries[n].weight);
            forall path ::
              Filed(syllabary, entries[..n + 1], path) == Filed(syllabary, entries[..n], path) + Share(e, path)
  {
    hide CodeOf;
    assert entries[..n + 1][..n] == entries[..n];
    CreateKeeps(root, Path(code), []);
    forall path ensures Entries(Create(root, Path(code)), path) == Entries(root, path) {
      CreateKeeps(root, Path(code), path);
    }
  }
}
