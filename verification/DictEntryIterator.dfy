/** Iterating over the entries of several chunks of a table at once, best entry first. */
module DictEntryIterators {
  import opened Spellings

  datatype Entry = Entry(text: string, weight: real)

  datatype Chunk = Chunk(code: seq<int>, entries: seq<Entry>, cursor: nat, remainingCode: string, credibility: real)

  datatype DictEntry = DictEntry(code: seq<int>, text: string, comment: string, weight: real, remainingCodeLength: nat)

  /** An entry together with what its chunk says about it. */
  datatype Item = Item(code: seq<int>, remainingCode: string, credibility: real, entry: Entry)

  // ---------- chunks and their order ----------

  predicate Live(c: Chunk) {
    c.cursor < |c.entries|
  }

  function Head(c: Chunk): Item
    requires Live(c)
  {
    ItemAt(c, c.cursor)
  }

  function ItemAt(c: Chunk, i: nat): Item
    requires i < |c.entries|
  {
    Item(c.code, c.remainingCode, c.credibility, c.entries[i])
  }

  function Score(x: Item): real {
    x.credibility * x.entry.weight
  }

  /** The comparison that orders chunks by their head elements. */
  predicate Less(a: Chunk, b: Chunk) {
    if !Live(a) then false
    else if !Live(b) then true
    else if |a.remainingCode| != |b.remainingCode| then |a.remainingCode| < |b.remainingCode|
    else Score(Head(a)) > Score(Head(b))
  }

  /** Shorter remaining code first, then the greater product of credibility and weight. */
  predicate NotAfter(x: Item, y: Item) {
    |x.remainingCode| < |y.remainingCode|
    || (|x.remainingCode| == |y.remainingCode| && x.credibility * x.entry.weight >= y.credibility * y.entry.weight)
  }

  predicate SortedByHead(cs: seq<Chunk>) {
    forall i, j :: 0 <= i < j < |cs| ==> !Less(cs[j], cs[i])
  }

  /** Places a chunk before the first one that is not less than it. */
  function Insert(c: Chunk, cs: seq<Chunk>): seq<Chunk> {
    if cs == [] || !Less(cs[0], c) then [c] + cs else [cs[0]] + Insert(c, cs[1..])
  }

  /** The stable sort of the list. */
  function SortChunks(cs: seq<Chunk>): seq<Chunk> {
    if cs == [] then [] else Insert(cs[0], SortChunks(cs[1..]))
  }

  lemma {:induction false} InsertElements(c: Chunk, cs: seq<Chunk>)
    ensures forall d :: d in Insert(c, cs) <==> d == c || d in cs
    ensures |Insert(c, cs)| == |cs| + 1
  {
    if cs != [] && Less(cs[0], c) {
      InsertElements(c, cs[1..]);
      assert cs == [cs[0]] + cs[1..];
    }
  }

  /** A chunk comes before another just when it is not exhausted, and the other is, or has the longer remaining code, or
      one as long and the smaller product of credibility and weight. */
  lemma LessExactly(a: Chunk, b: Chunk)
    ensures Less(a, b)
       <==> (a.cursor < |a.entries|
             && (b.cursor >= |b.entries| || |a.remainingCode| < |b.remainingCode|
                 || (|a.remainingCode| == |b.remainingCode|
                     && a.credibility * a.entries[a.cursor].weight > b.credibility * b.entries[b.cursor].weight)))
  {
  }

  lemma LessIsWeakOrder(a: Chunk, b: Chunk, c: Chunk)
    ensures Less(a, b) ==> !Less(b, a)
    ensures !Less(a, b) && !Less(b, c) ==> !Less(a, c)
  {
    hide Score;
  }

  lemma {:induction false} InsertSorts(c: Chunk, cs: seq<Chunk>)
    requires SortedByHead(cs)
    ensures SortedByHead(Insert(c, cs))
  {
    var out := Insert(c, cs);
    if cs != [] && Less(cs[0], c) {
      InsertSorts(c, cs[1..]);
      InsertElements(c, cs[1..]);
      LessIsWeakOrder(cs[0], c, c);
      forall d | d in Insert(c, cs[1..])
        ensures !Less(d, cs[0])
      {
      }
    } else {
      forall j | 0 <= j < |cs|
        ensures !Less(cs[j], c)
      {
        if cs != [] { LessIsWeakOrder(cs[j], cs[0], c); LessIsWeakOrder(cs[0], c, c); }
      }
    }
  }

  lemma {:induction false} SortSorts(cs: seq<Chunk>)
    ensures SortedByHead(SortChunks(cs))
    ensures forall d :: d in SortChunks(cs) <==> d in cs
    ensures |SortChunks(cs)| == |cs|
  {
    if cs != [] {
      SortSorts(cs[1..]);
      InsertSorts(cs[0], SortChunks(cs[1..]));
      InsertElements(cs[0], SortChunks(cs[1..]));
      assert cs == [cs[0]] + cs[1..];
    }
  }

  /** Neither chunk comes before the other. */
  predicate Alike(a: Chunk, b: Chunk) {
    !Less(a, b) && !Less(b, a)
  }

  /** The chunks of the list that are alike to `c`, in their order. */
  function Those(cs: seq<Chunk>, c: Chunk): seq<Chunk> {
    if cs == [] then [] else (if Alike(cs[0], c) then [cs[0]] else []) + Those(cs[1..], c)
  }

  lemma {:induction false} InsertStable(d: Chunk, cs: seq<Chunk>, c: Chunk)
    ensures Those(Insert(d, cs), c) == Those([d] + cs, c)
  {
    assert ([d] + cs)[1..] == cs;
    if cs != [] && Less(cs[0], d) {
      InsertStable(d, cs[1..], c);
      assert ([d] + cs[1..])[1..] == cs[1..];
      assert ([cs[0]] + Insert(d, cs[1..]))[1..] == Insert(d, cs[1..]);
      LessIsWeakOrder(cs[0], c, d);
    }
  }

  /** Sorting is stable: chunks of which neither comes before the other stay in their order. */
  lemma {:induction false} SortStable(cs: seq<Chunk>, c: Chunk)
    ensures Those(SortChunks(cs), c) == Those(cs, c)
  {
    if cs != [] {
      SortStable(cs[1..], c);
      InsertStable(cs[0], SortChunks(cs[1..]), c);
      assert ([cs[0]] + SortChunks(cs[1..]))[1..] == SortChunks(cs[1..]);
    }
  }

  // ---------- what is pending ----------

  function ItemsFrom(c: Chunk, i: nat): seq<Item>
    decreases |c.entries| - i
  {
    if i >= |c.entries| then [] else [ItemAt(c, i)] + ItemsFrom(c, i + 1)
  }

  function Rest(c: Chunk): seq<Item> {
    ItemsFrom(c, c.cursor)
  }

  lemma {:induction false} ItemsExactly(c: Chunk, i: nat)
    requires i <= |c.entries|
    ensures |ItemsFrom(c, i)| == |c.entries| - i
    ensures forall k :: 0 <= k < |c.entries| - i ==>
      ItemsFrom(c, i)[k] == Item(c.code, c.remainingCode, c.credibility, c.entries[i + k])
    decreases |c.entries| - i
  {
    if i < |c.entries| {
      ItemsExactly(c, i + 1);
    }
  }

  /** What is to come from a chunk is each of its entries from the cursor on, once and in order. */
  lemma RestExactly(c: Chunk)
    ensures |Rest(c)| == if c.cursor < |c.entries| then |c.entries| - c.cursor else 0
    ensures forall k :: 0 <= k < |Rest(c)| ==>
      Rest(c)[k] == Item(c.code, c.remainingCode, c.credibility, c.entries[c.cursor + k])
  {
    if c.cursor <= |c.entries| {
      ItemsExactly(c, c.cursor);
    }
  }

  function Pending(cs: seq<Chunk>): multiset<Item> {
    if cs == [] then multiset{} else multiset(Rest(cs[0])) + Pending(cs[1..])
  }

  lemma {:induction false} InsertPending(c: Chunk, cs: seq<Chunk>)
    ensures Pending(Insert(c, cs)) == multiset(Rest(c)) + Pending(cs)
  {
    if cs != [] && Less(cs[0], c) {
      InsertPending(c, cs[1..]);
      assert ([cs[0]] + Insert(c, cs[1..]))[1..] == Insert(c, cs[1..]);
    } else {
      assert ([c] + cs)[1..] == cs;
    }
  }

  /** A chunk that joins adds what is to come from it. */
  lemma {:induction false} PendingPush(cs: seq<Chunk>, c: Chunk)
    ensures Pending(cs + [c]) == Pending(cs) + multiset(Rest(c))
  {
    hide Rest;
    if cs == [] {
      assert cs + [c] == [c] && [c][1..] == [];
    } else {
      assert (cs + [c])[1..] == cs[1..] + [c];
      PendingPush(cs[1..], c);
    }
  }

  lemma {:induction false} SortPending(cs: seq<Chunk>)
    ensures Pending(SortChunks(cs)) == Pending(cs)
  {
    if cs != [] {
      SortPending(cs[1..]);
      InsertPending(cs[0], SortChunks(cs[1..]));
    }
  }

  /** The chunk list after the first chunk has moved on. */
  function Advanced(cs: seq<Chunk>): seq<Chunk>
    requires cs != []
  {
    var c := cs[0].(cursor := cs[0].cursor + 1);
    if c.cursor >= |c.entries| then cs[1..] else SortChunks([c] + cs[1..])
  }

  lemma {:induction false} CursorDoesNotMatter(c: Chunk, d: Chunk, i: nat)
    requires d == c.(cursor := d.cursor)
    ensures ItemsFrom(c, i) == ItemsFrom(d, i)
    decreases |c.entries| - i
  {
    if i < |c.entries| {
      CursorDoesNotMatter(c, d, i + 1);
    }
  }

  lemma AdvancedPending(cs: seq<Chunk>)
    requires cs != [] && Live(cs[0])
    ensures Pending(cs) == multiset{Head(cs[0])} + Pending(Advanced(cs))
  {
    var c, rest := cs[0].(cursor := cs[0].cursor + 1), cs[1..];
    CursorDoesNotMatter(cs[0], c, c.cursor);
    assert Rest(cs[0]) == [Head(cs[0])] + Rest(c);
    assert Rest(c) == [] || Live(c);
    var moved := [c] + rest;
    hide Rest, Head, SortChunks, ItemsFrom;
    SortPending(moved);
    assert moved[1..] == rest && moved[0] == c;
    assert Pending(moved) == multiset(Rest(c)) + Pending(rest);
  }

  // ---------- what the front chunk offers ----------

  /** The weights of a chunk do not increase, and its credibility is not negative. */
  ghost predicate Descending(c: Chunk) {
    c.credibility >= 0.0 && forall i, j :: 0 <= i < j < |c.entries| ==> c.entries[i].weight >= c.entries[j].weight
  }

  ghost predicate Mergeable(cs: seq<Chunk>) {
    (forall c :: c in cs ==> Live(c) && Descending(c)) && SortedByHead(cs)
  }

  lemma ScoreMonotone(credibility: real, v: real, w: real)
    requires credibility >= 0.0 && v >= w
    ensures credibility * v >= credibility * w
  {
    assert credibility * (v - w) >= 0.0;
    assert credibility * (v - w) == credibility * v - credibility * w;
  }

  lemma HeadIsFirst(c: Chunk, x: Item)
    requires Live(c) && Descending(c) && x in Rest(c)
    ensures NotAfter(Head(c), x)
  {
    var i := ItemIndex(c, c.cursor, x);
    ScoreMonotone(c.credibility, c.entries[c.cursor].weight, c.entries[i].weight);
  }

  lemma {:induction false} ItemIndex(c: Chunk, i: nat, x: Item) returns (k: nat)
    requires x in ItemsFrom(c, i)
    ensures i <= k < |c.entries| && x == ItemAt(c, k)
    decreases |c.entries| - i
  {
    if x == ItemAt(c, i) {
      return i;
    }
    k := ItemIndex(c, i + 1, x);
  }

  lemma NotAfterTransitive(x: Item, y: Item, z: Item)
    requires NotAfter(x, y) && NotAfter(y, z)
    ensures NotAfter(x, z)
  {
    hide Score;
  }

  lemma {:induction false} PendingComesFrom(cs: seq<Chunk>, x: Item)
    requires x in Pending(cs)
    ensures exists c :: c in cs && x in Rest(c)
  {
    if x !in Rest(cs[0]) {
      PendingComesFrom(cs[1..], x);
      var c :| c in cs[1..] && x in Rest(c);
      assert c in cs;
    }
  }

  /** The head of the first chunk comes before everything that is pending. */
  lemma FrontIsFirst(cs: seq<Chunk>, x: Item)
    requires cs != [] && Mergeable(cs) && x in Pending(cs)
    ensures NotAfter(Head(cs[0]), x)
  {
    PendingComesFrom(cs, x);
    hide Score, Rest, Descending;
    var c :| c in cs && x in Rest(c);
    HeadIsFirst(c, x);
    HeadsInOrder(cs, c);
    NotAfterTransitive(Head(cs[0]), Head(c), x);
  }

  lemma HeadsInOrder(cs: seq<Chunk>, c: Chunk)
    requires SortedByHead(cs) && c in cs && Live(c) && Live(cs[0])
    ensures NotAfter(Head(cs[0]), Head(c))
  {
    var i :| 0 <= i < |cs| && cs[i] == c;
    assert i > 0 ==> !Less(cs[i], cs[0]);
  }

  /** Moving on keeps the chunks sorted, although the list is only sorted again if the first chunk survives. */
  lemma AdvancedMergeable(cs: seq<Chunk>)
    requires cs != [] && Mergeable(cs)
    ensures Mergeable(Advanced(cs))
  {
    var c := cs[0].(cursor := cs[0].cursor + 1);
    if c.cursor >= |c.entries| {
      assert forall d :: d in cs[1..] ==> d in cs;
    } else {
      SortSorts([c] + cs[1..]);
      hide Less, SortChunks;
      assert Descending(cs[0]) && Descending(c);
      assert forall d :: d in [c] + cs[1..] ==> d == c || d in cs;
    }
  }

  // ---------- the iterator ----------

  function Publish(c: Chunk): DictEntry
    requires Live(c)
  {
    var e := c.entries[c.cursor];
    DictEntry(c.code, e.text, if c.remainingCode == "" then "" else "~" + c.remainingCode,
              (e.weight + 1.0) / 100000.0 * c.credibility, |c.remainingCode|)
  }

  class DictEntryIterator {
    var chunks: seq<Chunk>
    var entry: Option<DictEntry>
    var entryCount: nat

    constructor ()
      ensures chunks == [] && entry == None && entryCount == 0
    {
      chunks, entry, entryCount := [], None, 0;
    }

    /** The cached entry, if there is one, is that of the first chunk. */
    ghost predicate Fresh()
      reads this
    {
      entry.Some? ==> chunks != [] && Live(chunks[0]) && entry.value == Publish(chunks[0])
    }

    predicate Exhausted()
      reads this
    {
      chunks == []
    }

    method AddChunk(chunk: Chunk)
      modifies this
      ensures chunks == old(chunks) + [chunk] && entryCount == old(entryCount) + |chunk.entries|
      ensures entry == old(entry)
    {
      chunks := chunks + [chunk];
      entryCount := entryCount + |chunk.entries|;
    }

    method Sort()
      modifies this
      ensures chunks == SortChunks(old(chunks)) && entry == old(entry) && entryCount == old(entryCount)
    {
      chunks := SortChunks(chunks);
    }

    method Peek() returns (e: Option<DictEntry>)
      requires Fresh() && (chunks != [] ==> Live(chunks[0]))
      modifies this
      ensures Fresh() && chunks == old(chunks) && entryCount == old(entryCount)
      ensures e == if chunks == [] then None else Some(Publish(chunks[0]))
    {
      if Exhausted() {
        return None;
      }
      if entry.None? {
        var chunk := chunks[0];
        var comment, remaining := "", 0;
        if chunk.remainingCode != "" {
          comment, remaining := "~" + chunk.remainingCode, |chunk.remainingCode|;
        }
        var first := chunk.entries[chunk.cursor];
        var weight := (first.weight + 1.0) / 100000.0 * chunk.credibility;
        entry := Some(DictEntry(chunk.code, first.text, comment, weight, remaining));
      }
      return entry;
    }

    method Next() returns (more: bool)
      modifies this
      ensures old(chunks) == [] ==> chunks == [] && entry == old(entry) && !more
      ensures old(chunks) != [] ==> chunks == Advanced(old(chunks)) && entry == None && (more <==> !Exhausted())
      ensures entryCount == old(entryCount)
    {
      if Exhausted() {
        return false;
      }
      var chunk := chunks[0].(cursor := chunks[0].cursor + 1);
      if chunk.cursor >= |chunk.entries| {
        chunks := chunks[1..];
      } else {
        // the chunk comes back with another head, which may belong elsewhere
        chunks := [chunk] + chunks[1..];
        Sort();
      }
      // what has been shown is not to be shown again
      entry := None;
      return !Exhausted();
    }

    /** Peeks and moves on until nothing is left. */
    method Drain() returns (entries: seq<DictEntry>, ghost run: seq<Item>)
      requires Mergeable(chunks) && entry == None
      modifies this
      ensures Exhausted()
      ensures multiset(run) == Pending(old(chunks)) && InOrder(run)
      ensures |entries| == |run| && forall i :: 0 <= i < |run| ==> Shows(entries[i], run[i])
    {
      entries, run := [], [];
      hide Mergeable, Progress, Advanced;
      ghost var all := Pending(chunks);
      NoProgress(chunks);
      while !Exhausted()
        invariant Mergeable(chunks) && entry == None && Progress(all, chunks, run, entries)
        decreases |Pending(chunks)|
      {
        FrontIsLive(chunks);
        var e := Peek();
        ProgressNext(all, chunks, run, entries);
        AdvancedPending(chunks);
        AdvancedMergeable(chunks);
        entries := entries + [e.value];
        run := run + [Head(chunks[0])];
        var more := Next();
      }
      AllDrained(all, run, entries);
    }
  }

  /** The published entry is the one of the item. */
  ghost predicate Shows(e: DictEntry, x: Item) {
    e.code == x.code && e.text == x.entry.text && e.remainingCodeLength == |x.remainingCode|
    && e.comment == (if x.remainingCode == "" then "" else "~" + x.remainingCode)
    && e.weight == (x.entry.weight + 1.0) / 100000.0 * x.credibility
  }

  ghost predicate InOrder(run: seq<Item>) {
    forall i, j :: 0 <= i < j < |run| ==> NotAfter(run[i], run[j])
  }

  ghost predicate AllBefore(run: seq<Item>, pending: multiset<Item>) {
    forall i, x :: 0 <= i < |run| && x in pending ==> NotAfter(run[i], x)
  }

  lemma OrderNext(run: seq<Item>, pending: multiset<Item>, h: Item, left: multiset<Item>)
    requires InOrder(run) && AllBefore(run, pending) && pending == multiset{h} + left
    requires forall x :: x in pending ==> NotAfter(h, x)
    ensures InOrder(run + [h]) && AllBefore(run + [h], left)
    ensures multiset(run + [h]) + left == multiset(run) + pending
  {
    hide NotAfter;
    assert h in pending && forall x :: x in left ==> x in pending;
  }

  /** The items drained so far are in order, and before all that is still pending. */
  ghost predicate Progress(all: multiset<Item>, cs: seq<Chunk>, run: seq<Item>, entries: seq<DictEntry>) {
    && multiset(run) + Pending(cs) == all && InOrder(run) && AllBefore(run, Pending(cs))
    && |entries| == |run| && forall i :: 0 <= i < |run| ==> Shows(entries[i], run[i])
  }

  lemma NoProgress(cs: seq<Chunk>)
    ensures Progress(Pending(cs), cs, [], [])
  {
  }

  lemma ProgressNext(all: multiset<Item>, cs: seq<Chunk>, run: seq<Item>, entries: seq<DictEntry>)
    requires cs != [] && Mergeable(cs) && Live(cs[0]) && Progress(all, cs, run, entries)
    ensures Progress(all, Advanced(cs), run + [Head(cs[0])], entries + [Publish(cs[0])])
  {
    assert Shows(Publish(cs[0]), Head(cs[0]));
    hide Mergeable, Advanced, Shows, Publish, Head, Pending, InOrder, AllBefore, NotAfter;
    AdvancedPending(cs);
    FrontFirst(cs);
    OrderNext(run, Pending(cs), Head(cs[0]), Pending(Advanced(cs)));
  }

  lemma AllDrained(all: multiset<Item>, run: seq<Item>, entries: seq<DictEntry>)
    requires Progress(all, [], run, entries)
    ensures multiset(run) == all && InOrder(run)
    ensures |entries| == |run| && forall i :: 0 <= i < |run| ==> Shows(entries[i], run[i])
  {
  }

  lemma FrontIsLive(cs: seq<Chunk>)
    requires Mergeable(cs) && cs != []
    ensures Live(cs[0])
  {
  }

  lemma FrontFirst(cs: seq<Chunk>)
    requires Mergeable(cs) && cs != []
    ensures forall x :: x in Pending(cs) ==> NotAfter(Head(cs[0]), x)
  {
    forall x | x in Pending(cs)
      ensures NotAfter(Head(cs[0]), x)
    {
      FrontIsFirst(cs, x);
    }
  }

  /** Any live chunks can be merged once they are sorted, and sorting loses nothing. */
  lemma SortPrepares(cs: seq<Chunk>)
    requires forall c :: c in cs ==> Live(c) && Descending(c)
    ensures Mergeable(SortChunks(cs)) && Pending(SortChunks(cs)) == Pending(cs)
  {
    SortSorts(cs);
    SortPending(cs);
  }
}
