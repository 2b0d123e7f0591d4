/** The entry collector of the dictionary compiler: it creates entries, and encodes phrases from known words. */
module EntryCollectors {
  import opened Spellings
  import opened Orderings
  import opened PhraseEncodings

  datatype RawDictEntry = RawDictEntry(rawCode: seq<string>, text: string, weight: real)

  /** Where weights come from: the preset vocabulary, if there is one, and the parser of numbers. */
  datatype Weights = Weights(preset: Option<string -> Option<real>>, cast: string -> Option<real>) {

    function Preset(text: string): real {
      if preset.Some? && preset.value(text).Some? then preset.value(text).value else 0.0
    }

    /** A percentage scales the preset weight, a number replaces it, and nothing leaves it as it is. */
    function WeightOf(text: string, weightStr: string): real {
      if weightStr == "" then Preset(text)
      else if weightStr[|weightStr| - 1] == '%' then
        var p := cast(weightStr[..|weightStr| - 1]);
        Preset(text) * ((if p.Some? then p.value else 100.0) / 100.0)
      else if cast(weightStr).Some? then cast(weightStr).value else 0.0
    }
  }

  /** No weight is the preset one, and "%" a part of it, the whole if there is no number before it; a number is itself,
      and what is no number is nothing. A word that is not preset weighs nothing. */
  lemma WeightExactly(w: Weights, text: string, s: string)
    ensures w.preset.None? || w.preset.value(text).None? ==> w.WeightOf(text, "") == 0.0
    ensures w.preset.Some? && w.preset.value(text).Some? ==> w.WeightOf(text, "") == w.preset.value(text).value
    ensures w.cast(s) == None ==> w.WeightOf(text, s + "%") == w.WeightOf(text, "")
    ensures w.cast(s).Some? ==> w.WeightOf(text, s + "%") * 100.0 == w.WeightOf(text, "") * w.cast(s).value
    ensures s != "" && s[|s| - 1] != '%' ==>
      w.WeightOf(text, s) == match w.cast(s) case Some(x) => x case None => 0.0
  {
    assert (s + "%")[..|s|] == s;
  }

  function CodesIn(ps: seq<Piece>): seq<string> {
    if ps == [] then [] else [ps[0].code] + CodesIn(ps[1..])
  }

  /** The entries for a phrase: each code is `base`, which has been chosen already, and the codes of one encoding. */
  function EntriesFor(phrase: string, weight: real, base: seq<string>, pss: seq<seq<Piece>>): seq<RawDictEntry> {
    if pss == [] then []
    else [RawDictEntry(base + CodesIn(pss[0]), phrase, weight)] + EntriesFor(phrase, weight, base, pss[1..])
  }

  lemma {:induction false} EntriesConcat(phrase: string, weight: real, base: seq<string>, a: seq<seq<Piece>>,
                                        b: seq<seq<Piece>>)
    ensures EntriesFor(phrase, weight, base, a + b)
         == EntriesFor(phrase, weight, base, a) + EntriesFor(phrase, weight, base, b)
  {
    if a == [] {
      assert a + b == b;
    } else {
      assert (a + b)[1..] == a[1..] + b && (a + b)[0] == a[0];
      EntriesConcat(phrase, weight, base, a[1..], b);
    }
  }

  /** The entries are one for each encoding, in order, with the phrase and its weight, and the codes of the pieces. */
  lemma {:induction false} EntriesExactly(phrase: string, weight: real, base: seq<string>, pss: seq<seq<Piece>>, i: nat)
    requires i < |pss|
    ensures |EntriesFor(phrase, weight, base, pss)| == |pss|
    ensures var e := EntriesFor(phrase, weight, base, pss)[i];
      && e.text == phrase && e.weight == weight && |e.rawCode| == |base| + |pss[i]| && e.rawCode[..|base|] == base
      && forall k :: 0 <= k < |pss[i]| ==> e.rawCode[|base| + k] == pss[i][k].code
  {
    CodesExactly(pss[0]);
    if |pss| > 1 {
      EntriesExactly(phrase, weight, base, pss[1..], if i > 0 then i - 1 else 0);
    }
  }

  lemma {:induction false} CodesExactly(ps: seq<Piece>)
    ensures |CodesIn(ps)| == |ps| && forall k :: 0 <= k < |ps| ==> CodesIn(ps)[k] == ps[k].code
  {
    if ps != [] {
      CodesExactly(ps[1..]);
    }
  }

  lemma {:induction false} EntriesPrefixed(phrase: string, weight: real, base: seq<string>, p: Piece,
                                          pss: seq<seq<Piece>>)
    ensures EntriesFor(phrase, weight, base, Prefixed(p, pss)) == EntriesFor(phrase, weight, base + [p.code], pss)
    ensures |Prefixed(p, pss)| == |pss|
  {
    if pss != [] {
      EntriesPrefixed(phrase, weight, base, p, pss[1..]);
      var first := [p] + pss[0];
      assert first[1..] == pss[0];
      assert base + CodesIn(first) == base + [p.code] + CodesIn(pss[0]);
    }
  }

  /** The code that is being put together, shared by all the calls that encode one phrase. */
  class CodeStack {
    var items: seq<string>

    constructor ()
      ensures items == []
    {
      items := [];
    }

    method Push(c: string)
      modifies this
      ensures items == old(items) + [c]
    {
      items := items + [c];
    }

    method Pop()
      requires items != []
      modifies this
      ensures items == old(items)[..|old(items)| - 1]
    {
      items := items[..|items| - 1];
    }
  }

  class EntryCollector {
    const weights: Weights
    var syllabary: set<string>
    var entries: seq<RawDictEntry>
    var numEntries: nat
    var words: map<string, map<string, real>>
    var totalWeightForWord: map<string, real>

    constructor (w: Weights)
      ensures weights == w && syllabary == {} && entries == [] && numEntries == 0
      ensures words == map[] && totalWeightForWord == map[] && Valid() && Balanced(Known())
    {
      weights := w;
      syllabary, entries, numEntries, words, totalWeightForWord := {}, [], 0, map[], map[];
    }

    function Known(): Lexicon
      reads this
    {
      Lexicon(words, totalWeightForWord)
    }

    /** What encoding a phrase relies on: all that is done with a collector keeps it. */
    ghost predicate Valid()
      reads this
    {
      Consistent(Known(), syllabary)
    }

    method ReadWeight(word: string, weightStr: string) returns (weight: real)
      ensures weight == weights.WeightOf(word, weightStr)
    {
      weight := 0.0;
      var scaled := weightStr != "" && weightStr[|weightStr| - 1] == '%';
      if (weightStr == "" || scaled) && weights.preset.Some? {
        var w := weights.preset.value(word);
        if w.Some? {
          weight := w.value;
        }
      }
      if scaled {
        var percentage := 100.0;
        var p := weights.cast(weightStr[..|weightStr| - 1]);
        if p.Some? {
          percentage := p.value;
        }
        weight := weight * (percentage / 100.0);
      } else if weightStr != "" {
        var w := weights.cast(weightStr);
        weight := if w.Some? then w.value else 0.0;
      }
    }

    method LearnWord(word: string, codeStr: string, weight: real)
      modifies this`words, this`totalWeightForWord
      ensures Learns(old(Known()), word, codeStr, weight, Known())
    {
      var codes := if word in words then words[word] else map[];
      words := words[word := codes[codeStr := WeightIn(codes, codeStr) + weight]];
      totalWeightForWord := totalWeightForWord[word := WeightIn(totalWeightForWord, word) + weight];
    }

    method CreateEntry(word: string, codeStr: string, weightStr: string)
      modifies this
      ensures entries == old(entries) + [RawDictEntry(FromString(codeStr), word, weights.WeightOf(word, weightStr))]
      ensures numEntries == old(numEntries) + 1
      ensures syllabary == old(syllabary) + set s | s in FromString(codeStr)
      ensures |FromString(codeStr)| != 1 ==> Known() == old(Known())
      ensures |FromString(codeStr)| == 1 ==>
        Learns(old(Known()), word, codeStr, weights.WeightOf(word, weightStr), Known())
      ensures old(Valid()) && (codeStr != "" || word == "") ==> Valid()
      ensures old(Balanced(Known())) ==> Balanced(Known())
    {
      hide Consistent, Balanced, Learns, FromString;
      var weight := ReadWeight(word, weightStr);
      var rawCode := FromString(codeStr);
      ghost var d, known := Known(), syllabary;
      // every token is a syllable
      syllabary := syllabary + set s | s in rawCode;
      // a single token makes a word
      if |rawCode| == 1 {
        LearnWord(word, codeStr, weight);
      }
      entries := entries + [RawDictEntry(rawCode, word, weight)];
      numEntries := numEntries + 1;
      CreatedKeepsConsistent(d, known, word, codeStr, weight, Known());
      if |rawCode| == 1 && Balanced(d) {
        LearningKeepsBalance(d, word, codeStr, weight, Known());
      }
    }

    /** Creates an entry for every encoding of the rest of the phrase. */
    method Encode(phrase: string, weightStr: string, start: nat, code: CodeStack) returns (ok: bool)
      requires Encodable(Known(), syllabary, phrase, start, code.items)
      modifies this, code
      ensures code.items == old(code.items) && Valid()
      ensures phrase != "" ==> syllabary == old(syllabary)
      ensures phrase != "" ==>
        var r := Encoded(old(Known()), phrase, weights.WeightOf(phrase, weightStr), start, code.items);
        Known() == r.lexicon && (ok <==> r.found != [])
        && Adds(old(entries), old(numEntries), entries, numEntries, phrase, weights.WeightOf(phrase, weightStr),
                code.items, r.found)
      ensures phrase == "" ==> ok && syllabary == old(syllabary) + {""} && numEntries == old(numEntries) + 1
      ensures phrase == "" ==> entries == old(entries) + [RawDictEntry([""], "", weights.WeightOf("", weightStr))]
      ensures phrase == "" ==> Known() == Learned(old(Known()), "", "", weights.WeightOf("", weightStr))
      decreases |phrase| - start, 2
    {
      hide Encoded, ByLength, ByCode, WithOne, Encodable, Adds, FromString, ToString, Weights.WeightOf;
      hide Lexicon.CodesOf, Learns, WithLengths, WithCodes;
      ghost var d, weight := Known(), weights.WeightOf(phrase, weightStr);
      EncodableStart(d, syllabary, phrase, start, code.items);
      EncodableIsConsistent(d, syllabary, phrase, start, code.items);
      if start == |phrase| {
        CreateEntry(phrase, ToString(code.items), weightStr);
        if phrase != "" {
          AddsOne(old(entries), old(numEntries), phrase, weight, code.items);
          LearnedAtEnd(d, phrase, weight, code.items, Known());
        } else {
          LearnsIs(d, "", "", weight, Known());
        }
        return true;
      }
      ok := false;
      NoLengths(d, phrase, weight, start);
      AddsNone(entries, numEntries, phrase, weight, code.items);
      for k := |phrase| - start + 1 downto 1
        invariant code.items == old(code.items) && syllabary == old(syllabary)
        invariant Known() == ByLength(d, phrase, weight, start, k).lexicon
        invariant Adds(old(entries), old(numEntries), entries, numEntries, phrase, weight, code.items,
                       ByLength(d, phrase, weight, start, k).found)
        invariant ok <==> ByLength(d, phrase, weight, start, k).found != []
      {
        ghost var mid, count, now := entries, numEntries, Known();
        StillEncodable(d, syllabary, phrase, weight, start, k + 1, code.items);
        var one := EncodeWord(phrase, weightStr, start, k, code);
        ok := ok || one;
        NextLength(d, phrase, weight, start, k);
        AddsMore(old(entries), old(numEntries), mid, count, entries, numEntries, phrase, weight, code.items,
                 ByLength(d, phrase, weight, start, k + 1).found,
                 ByCode(now, phrase, weight, start, k, |now.CodesOf(WordAt(phrase, start, k))|).found);
      }
      AllLengths(d, phrase, weight, start, code.items);
      StillEncodable(d, syllabary, phrase, weight, start, 1, code.items);
      EncodableIsConsistent(Known(), syllabary, phrase, start, code.items);
    }

    /** The same for the encodings that begin with the word of length `k`. */
    method EncodeWord(phrase: string, weightStr: string, start: nat, k: nat, code: CodeStack) returns (ok: bool)
      requires Encodable(Known(), syllabary, phrase, start, code.items)
      requires start < |phrase| && 1 <= k <= |phrase| - start
      modifies this, code
      ensures code.items == old(code.items) && syllabary == old(syllabary)
      ensures var d := old(Known());
              var n := |d.CodesOf(WordAt(phrase, start, k))|;
              var r := ByCode(d, phrase, weights.WeightOf(phrase, weightStr), start, k, n);
              Known() == r.lexicon && (ok <==> r.found != [])
              && Adds(old(entries), old(numEntries), entries, numEntries, phrase, weights.WeightOf(phrase, weightStr),
                      code.items, r.found)
      decreases |phrase| - start, 1
    {
      hide Encoded, ByLength, ByCode, WithOne, Encodable, Adds, FromString, ToString, Weights.WeightOf;
      hide Lexicon.CodesOf, Learns, WithLengths, WithCodes;
      ghost var d, weight := Known(), weights.WeightOf(phrase, weightStr);
      AddsNone(entries, numEntries, phrase, weight, code.items);
      NoCodes(d, phrase, weight, start, k);
      ok := false;
      var w := phrase[start..start + k];
      CodesOfWord(d, w);
      if w !in words {
        return;
      }
      var codes := InOrder(words[w].Keys);
      for n := 0 to |codes|
        invariant code.items == old(code.items) && syllabary == old(syllabary)
        invariant Known() == ByCode(d, phrase, weight, start, k, n).lexicon
        invariant Adds(old(entries), old(numEntries), entries, numEntries, phrase, weight, code.items,
                       ByCode(d, phrase, weight, start, k, n).found)
        invariant ok <==> ByCode(d, phrase, weight, start, k, n).found != []
      {
        ghost var mid, count, now := entries, numEntries, Known();
        StillEncodableByCode(d, syllabary, phrase, weight, start, k, n, code.items);
        var one := EncodeWith(phrase, weightStr, start, k, codes[n], code);
        ok := ok || one;
        NextCode(d, phrase, weight, start, k, n);
        AddsMore(old(entries), old(numEntries), mid, count, entries, numEntries, phrase, weight, code.items,
                 ByCode(d, phrase, weight, start, k, n).found, WithOne(now, phrase, weight, start, k, codes[n]).found);
      }
    }

    /** The same for those that begin with one code of that word, if its weight is enough. */
    method EncodeWith(phrase: string, weightStr: string, start: nat, k: nat, c: string, code: CodeStack)
      returns (ok: bool)
      requires Encodable(Known(), syllabary, phrase, start, code.items)
      requires start < |phrase| && 1 <= k <= |phrase| - start
      requires WordAt(phrase, start, k) in words && c in words[WordAt(phrase, start, k)]
      modifies this, code
      ensures code.items == old(code.items) && syllabary == old(syllabary)
      ensures var r := WithOne(old(Known()), phrase, weights.WeightOf(phrase, weightStr), start, k, c);
              Known() == r.lexicon && (ok <==> r.found != [])
              && Adds(old(entries), old(numEntries), entries, numEntries, phrase, weights.WeightOf(phrase, weightStr),
                      code.items, r.found)
      decreases |phrase| - start, 0
    {
      hide Encoded, ByLength, ByCode, WithOne, Encodable, Adds, FromString, ToString, Weights.WeightOf;
      hide Lexicon.CodesOf, Learns, WithLengths, WithCodes;
      ghost var d, weight := Known(), weights.WeightOf(phrase, weightStr);
      EncodableNext(d, syllabary, phrase, start, k, code.items, c);
      WithOneIs(d, phrase, weight, start, k, c, code.items);
      var w := phrase[start..start + k];
      var minWeight := totalWeightForWord[w] * 0.05;
      if words[w][c] < minWeight {
        AddsNone(entries, numEntries, phrase, weight, code.items);
        return false;
      }
      ghost var base := code.items;
      code.Push(c);
      ok := Encode(phrase, weightStr, start + k, code);
      AddsPrefixed(old(entries), old(numEntries), entries, numEntries, phrase, weight, base, Piece(w, c),
                   Encoded(d, phrase, weight, start + k, base + [c]).found);
      code.Pop();
      assert code.items == base;
    }
  }

  // ---------- what encoding a phrase finds, and what it learns ----------

  datatype Outcome = Outcome(lexicon: Lexicon, found: seq<seq<Piece>>)

  function Forget(d: Lexicon, w: string): Lexicon {
    Lexicon(d.words - {w}, d.total - {w})
  }

  function Learned(d: Lexicon, word: string, code: string, weight: real): Lexicon {
    var codes := if word in d.words then d.words[word] else map[];
    Lexicon(d.words[word := codes[code := WeightIn(codes, code) + weight]],
            d.total[word := WeightIn(d.total, word) + weight])
  }

  /** A phrase that is itself a known word is encoded by those of its first `n` codes that have enough weight. An entry
      with such a code is that of a word, which is learned again: the weight that the next code needs has grown. */
  ghost function AsWord(d: Lexicon, phrase: string, weight: real, n: nat): Outcome
    requires n <= |d.CodesOf(phrase)|
  {
    if n == 0 then Outcome(d, []) else
      var before := AsWord(d, phrase, weight, n - 1);
      var r := OneAsWord(before.lexicon, phrase, weight, d.CodesOf(phrase)[n - 1]);
      Outcome(r.lexicon, before.found + r.found)
  }

  ghost function OneAsWord(d: Lexicon, phrase: string, weight: real, c: string): Outcome {
    if d.Qualifies(phrase, c) then Outcome(Learned(d, phrase, c, weight), [[Piece(phrase, c)]]) else Outcome(d, [])
  }

  /** The whole phrase: by itself if it is a known word, and then by shorter words, which changes no weights. */
  ghost function Encoded(d: Lexicon, phrase: string, weight: real, start: nat, items: seq<string>): Outcome
    requires start <= |phrase|
  {
    if start == |phrase| then Outcome(if |items| == 1 then Learned(d, phrase, items[0], weight) else d, [[]])
    else ByLength(d, phrase, weight, start, 1)
  }

  ghost function ByLength(d: Lexicon, phrase: string, weight: real, start: nat, k: nat): Outcome
    requires start < |phrase| && 1 <= k <= |phrase| - start + 1
  {
    var word := if start == 0 && k <= |phrase| then AsWord(d, phrase, weight, |d.CodesOf(phrase)|) else Outcome(d, []);
    Outcome(word.lexicon, word.found + WithLengths(Forget(d, phrase), phrase, start, k))
  }

  ghost function ByCode(d: Lexicon, phrase: string, weight: real, start: nat, k: nat, n: nat): Outcome
    requires start < |phrase| && 1 <= k <= |phrase| - start && n <= |d.CodesOf(WordAt(phrase, start, k))|
  {
    SameCodesOf(d, phrase, start, k);
    if k == |phrase| then AsWord(d, phrase, weight, n)
    else Outcome(d, WithCodes(Forget(d, phrase), phrase, start, k, n))
  }

  ghost function WithOne(d: Lexicon, phrase: string, weight: real, start: nat, k: nat, c: string): Outcome
    requires start < |phrase| && 1 <= k <= |phrase| - start
  {
    if k == |phrase| then OneAsWord(d, phrase, weight, c)
    else Outcome(d, WithCode(Forget(d, phrase), phrase, start, k, c))
  }

  lemma SameCodesOf(d: Lexicon, phrase: string, start: nat, k: nat)
    requires start < |phrase| && 1 <= k <= |phrase| - start
    ensures k == |phrase| <==> WordAt(phrase, start, k) == phrase
    ensures k != |phrase| ==>
      Forget(d, phrase).CodesOf(WordAt(phrase, start, k)) == d.CodesOf(WordAt(phrase, start, k))
  {
    assert phrase[..|phrase|] == phrase;
  }

  lemma CodesOfWord(d: Lexicon, w: string)
    ensures d.CodesOf(w) == if w in d.words then SortedKeys(d.words[w].Keys) else []
  {
  }

  lemma LearnedKeeps(d: Lexicon, word: string, code: string, weight: real)
    requires d.Qualifies(word, code)
    ensures Kept(d, word, Learned(d, word, code, weight))
  {
    assert Forget(Learned(d, word, code, weight), word) == Forget(d, word);
  }

  /** Only the weights of the word may have changed. */
  ghost predicate Kept(d: Lexicon, word: string, d': Lexicon) {
    && Forget(d', word) == Forget(d, word) && d'.words.Keys == d.words.Keys && d'.total.Keys == d.total.Keys
    && (word in d.words ==> d'.words[word].Keys == d.words[word].Keys)
  }

  /** Being learned again does not give a word new codes. */
  lemma {:induction false} AsWordKeeps(d: Lexicon, phrase: string, weight: real, n: nat)
    requires n <= |d.CodesOf(phrase)|
    ensures Kept(d, phrase, AsWord(d, phrase, weight, n).lexicon)
  {
    hide Learned, Forget, Lexicon.CodesOf, Lexicon.Qualifies;
    if n > 0 {
      AsWordKeeps(d, phrase, weight, n - 1);
      var before := AsWord(d, phrase, weight, n - 1).lexicon;
      if before.Qualifies(phrase, d.CodesOf(phrase)[n - 1]) {
        LearnedKeeps(before, phrase, d.CodesOf(phrase)[n - 1], weight);
      }
    }
  }

  lemma OneAddsUp(d: Lexicon, phrase: string, weight: real, c: string, m: nat)
    requires phrase in d.total
    ensures var r := OneAsWord(d, phrase, weight, c);
            phrase in r.lexicon.total
            && r.lexicon.total[phrase] + weight * m as real == d.total[phrase] + weight * (m + |r.found|) as real
  {
  }

  lemma OnePiece(w: string, a: string, b: string)
    ensures [Piece(w, a)] == [Piece(w, b)] ==> a == b
  {
    assert [Piece(w, a)][0].code == a;
  }

  /** The total of the phrase gets the weight of the entry as often as there are entries. */
  lemma {:induction false} AsWordAddsUp(d: Lexicon, phrase: string, weight: real, n: nat)
    requires phrase in d.words && phrase in d.total && n <= |d.CodesOf(phrase)|
    ensures var r := AsWord(d, phrase, weight, n);
            phrase in r.lexicon.total && r.lexicon.total[phrase] == d.total[phrase] + weight * |r.found| as real
  {
    hide Lexicon.CodesOf, OneAsWord;
    if n > 0 {
      var before := AsWord(d, phrase, weight, n - 1);
      AsWordAddsUp(d, phrase, weight, n - 1);
      OneAddsUp(before.lexicon, phrase, weight, d.CodesOf(phrase)[n - 1], |before.found|);
    }
  }

  /** Every code that is found gets the weight of the entry once, and the others keep theirs. */
  lemma {:induction false} AsWordLearns(d: Lexicon, phrase: string, weight: real, n: nat, c: string)
    requires phrase in d.words && c in d.words[phrase] && n <= |d.CodesOf(phrase)|
    ensures var r := AsWord(d, phrase, weight, n);
            phrase in r.lexicon.words && c in r.lexicon.words[phrase] && r.lexicon.words[phrase][c]
              == d.words[phrase][c] + if [Piece(phrase, c)] in r.found then weight else 0.0
  {
    hide Lexicon.CodesOf;
    AsWordKeeps(d, phrase, weight, n);
    if n > 0 {
      AsWordKeeps(d, phrase, weight, n - 1);
      AsWordLearns(d, phrase, weight, n - 1, c);
      CodesAreNew(d, phrase, n - 1);
      FoundIsTried(d, phrase, weight, n - 1, c);
    }
  }

  lemma CodesAreNew(d: Lexicon, w: string, n: nat)
    requires n < |d.CodesOf(w)|
    ensures d.CodesOf(w)[n] !in d.CodesOf(w)[..n] && w in d.words && d.CodesOf(w)[n] in d.words[w]
  {
    CodeIsNew(d.CodesOf(w), n);
    assert d.CodesOf(w)[n] in d.CodesOf(w);
  }

  lemma {:induction false} FoundIsTried(d: Lexicon, phrase: string, weight: real, n: nat, c: string)
    requires n <= |d.CodesOf(phrase)|
    ensures [Piece(phrase, c)] in AsWord(d, phrase, weight, n).found ==> c in d.CodesOf(phrase)[..n]
  {
    hide Lexicon.CodesOf, Learned, Lexicon.Qualifies;
    if n > 0 {
      FoundIsTried(d, phrase, weight, n - 1, c);
      assert d.CodesOf(phrase)[..n] == d.CodesOf(phrase)[..n - 1] + [d.CodesOf(phrase)[n - 1]];
      OnePiece(phrase, c, d.CodesOf(phrase)[n - 1]);
    }
  }

  /** A code is found just when its own weight is enough for what the total is by then. */
  lemma {:induction false} AsWordFinds(d: Lexicon, phrase: string, weight: real, n: nat, i: nat)
    requires phrase in d.words && phrase in d.total && i < n <= |d.CodesOf(phrase)|
    ensures d.CodesOf(phrase)[i] in d.words[phrase]
    ensures [Piece(phrase, d.CodesOf(phrase)[i])] in AsWord(d, phrase, weight, n).found
      <==> d.words[phrase][d.CodesOf(phrase)[i]]
           >= (d.total[phrase] + weight * |AsWord(d, phrase, weight, i).found| as real) * 0.05
    decreases n
  {
    hide Lexicon.CodesOf, Learned;
    var c := d.CodesOf(phrase)[i];
    CodesAreNew(d, phrase, i);
    CodesAreNew(d, phrase, n - 1);
    if i < n - 1 {
      AsWordFinds(d, phrase, weight, n - 1, i);
      assert c in d.CodesOf(phrase)[..n - 1];
      OnePiece(phrase, c, d.CodesOf(phrase)[n - 1]);
    } else {
      AsWordLearns(d, phrase, weight, i, c);
      AsWordAddsUp(d, phrase, weight, i);
      FoundIsTried(d, phrase, weight, i, c);
    }
  }

  /** What is found is encodings by a single piece, with codes of the phrase. */
  lemma {:induction false} FoundIsCode(d: Lexicon, phrase: string, weight: real, n: nat, i: nat)
    requires n <= |d.CodesOf(phrase)| && i < |AsWord(d, phrase, weight, n).found|
    ensures var ps := AsWord(d, phrase, weight, n).found[i];
            |ps| == 1 && ps[0].word == phrase && ps[0].code in d.CodesOf(phrase)[..n]
  {
    hide Learned, Lexicon.CodesOf, Lexicon.Qualifies;
    assert n > 0;
    var cs := d.CodesOf(phrase);
    assert cs[..n] == cs[..n - 1] + [cs[n - 1]];
    if i < |AsWord(d, phrase, weight, n - 1).found| {
      FoundIsCode(d, phrase, weight, n - 1, i);
    }
  }

  /** The codes are in their order. */
  lemma {:induction false} AsWordInOrder(d: Lexicon, phrase: string, weight: real, n: nat, i: nat, j: nat)
    requires n <= |d.CodesOf(phrase)| && i < j < |AsWord(d, phrase, weight, n).found|
    ensures var found := AsWord(d, phrase, weight, n).found;
            |found[i]| == |found[j]| == 1 && Before(found[i][0].code, found[j][0].code)
    decreases n
  {
    assert Ascending(d.CodesOf(phrase));
    hide Learned, Lexicon.CodesOf, Lexicon.Qualifies;
    FoundIsCode(d, phrase, weight, n, i);
    FoundIsCode(d, phrase, weight, n, j);
    if j < |AsWord(d, phrase, weight, n - 1).found| {
      AsWordInOrder(d, phrase, weight, n - 1, i, j);
    } else {
      FoundIsCode(d, phrase, weight, n - 1, i);
    }
  }

  /** For any phrase, it is encoded by its own codes first, and then by the encodings without it as a word. */
  lemma OwnCodesFirst(d: Lexicon, phrase: string, weight: real)
    requires phrase != ""
    ensures var own := AsWord(d, phrase, weight, |d.CodesOf(phrase)|);
            Encoded(d, phrase, weight, 0, [])
              == Outcome(own.lexicon, own.found + Encodings(Forget(d, phrase), phrase, 0))
  {
    hide WithLengths, Forget, AsWord;
  }

  /** For a phrase that is no known word, the outcome is the encodings, and nothing is learned. */
  lemma UnknownPhrase(d: Lexicon, phrase: string, weight: real)
    requires phrase != "" && phrase !in d.words && d.words.Keys == d.total.Keys
    ensures Encoded(d, phrase, weight, 0, []) == Outcome(d, Encodings(d, phrase, 0))
  {
    assert Forget(d, phrase) == d;
    hide WithLengths, Forget;
    CodesOfWord(d, phrase);
    assert Encoded(d, phrase, weight, 0, []) == ByLength(d, phrase, weight, 0, 1);
  }

  /** For any phrase, leaving it out as a word leaves the encodings by two words or more. */
  lemma ShorterWords(d: Lexicon, phrase: string, ps: seq<Piece>)
    requires phrase != "" && d.words.Keys == d.total.Keys
    ensures ps in Encodings(Forget(d, phrase), phrase, 0) <==> ps in Encodings(d, phrase, 0) && |ps| >= 2
  {
    hide Encodings;
    EncodingsExactly(d, phrase, 0, ps);
    EncodingsExactly(Forget(d, phrase), phrase, 0, ps);
    assert phrase[0..|phrase|] == phrase;
    if ps != [] && 0 < |ps[0].word| <= |phrase| {
      ForgottenElsewhere(d, phrase, |ps[0].word|, ps[1..]);
    }
  }

  lemma {:induction false} ForgottenElsewhere(d: Lexicon, phrase: string, start: nat, ps: seq<Piece>)
    requires 0 < start <= |phrase|
    ensures Encodes(Forget(d, phrase), phrase, start, ps) <==> Encodes(d, phrase, start, ps)
    decreases |ps|
  {
    if ps != [] && ps[0].word != "" && start + |ps[0].word| <= |phrase| {
      ForgottenElsewhere(d, phrase, start + |ps[0].word|, ps[1..]);
    }
  }

  // ---------- the loops, turn by turn ----------

  lemma LearnsIs(d: Lexicon, word: string, code: string, weight: real, now: Lexicon)
    requires Learns(d, word, code, weight, now)
    ensures now == Learned(d, word, code, weight)
  {
    assert now.words == Learned(d, word, code, weight).words;
    assert now.total == Learned(d, word, code, weight).total;
  }

  lemma LearnedAtEnd(d: Lexicon, phrase: string, weight: real, items: seq<string>, now: Lexicon)
    requires |items| != 1 ==> now == d
    requires |items| == 1 ==> Learns(d, phrase, items[0], weight, now)
    ensures Encoded(d, phrase, weight, |phrase|, items) == Outcome(now, [[]])
  {
  }

  lemma AllLengths(d: Lexicon, phrase: string, weight: real, start: nat, items: seq<string>)
    requires start < |phrase|
    ensures Encoded(d, phrase, weight, start, items) == ByLength(d, phrase, weight, start, 1)
  {
  }

  lemma NoLengths(d: Lexicon, phrase: string, weight: real, start: nat)
    requires start < |phrase|
    ensures ByLength(d, phrase, weight, start, |phrase| - start + 1) == Outcome(d, [])
  {
  }

  lemma NextLength(d: Lexicon, phrase: string, weight: real, start: nat, k: nat)
    requires start < |phrase| && 1 <= k <= |phrase| - start
    ensures var before := ByLength(d, phrase, weight, start, k + 1);
            var n := |before.lexicon.CodesOf(WordAt(phrase, start, k))|;
            var r := ByCode(before.lexicon, phrase, weight, start, k, n);
            ByLength(d, phrase, weight, start, k) == Outcome(r.lexicon, before.found + r.found)
  {
    hide WithLengths, WithCodes, AsWord;
    var f, before := Forget(d, phrase), ByLength(d, phrase, weight, start, k + 1).lexicon;
    SameCodesOf(d, phrase, start, k);
    LengthsUnfold(f, phrase, start, k);
    AsWordKeeps(d, phrase, weight, |d.CodesOf(phrase)|);
    if k == |phrase| {
      NoLengths(d, phrase, weight, start);
      NoCodesOf(f, phrase, start, k);
    } else {
      SameCodesOf(before, phrase, start, k);
    }
  }

  lemma LengthsUnfold(d: Lexicon, phrase: string, start: nat, k: nat)
    requires start < |phrase| && 1 <= k <= |phrase| - start
    ensures WithLengths(d, phrase, start, k) == WithLengths(d, phrase, start, k + 1)
      + WithCodes(d, phrase, start, k, |d.CodesOf(WordAt(phrase, start, k))|)
  {
  }

  lemma NoCodesOf(d: Lexicon, phrase: string, start: nat, k: nat)
    requires start < |phrase| && 1 <= k <= |phrase| - start && WordAt(phrase, start, k) !in d.words
    ensures d.CodesOf(WordAt(phrase, start, k)) == [] && WithCodes(d, phrase, start, k, 0) == []
  {
  }

  lemma NoCodes(d: Lexicon, phrase: string, weight: real, start: nat, k: nat)
    requires start < |phrase| && 1 <= k <= |phrase| - start
    ensures ByCode(d, phrase, weight, start, k, 0) == Outcome(d, [])
  {
  }

  lemma NextCode(d: Lexicon, phrase: string, weight: real, start: nat, k: nat, n: nat)
    requires start < |phrase| && 1 <= k <= |phrase| - start && n < |d.CodesOf(WordAt(phrase, start, k))|
    ensures var before := ByCode(d, phrase, weight, start, k, n);
            var r := WithOne(before.lexicon, phrase, weight, start, k, d.CodesOf(WordAt(phrase, start, k))[n]);
            ByCode(d, phrase, weight, start, k, n + 1) == Outcome(r.lexicon, before.found + r.found)
  {
    SameCodesOf(d, phrase, start, k);
  }

  /** One code: skipped if its weight is not enough, and otherwise put before every encoding of what is left. */
  lemma WithOneIs(d: Lexicon, phrase: string, weight: real, start: nat, k: nat, c: string, items: seq<string>)
    requires start < |phrase| && 1 <= k <= |phrase| - start && (start == 0 <==> items == [])
    requires var w := WordAt(phrase, start, k); w in d.words && w in d.total && c in d.words[w]
    ensures var w := WordAt(phrase, start, k);
            var rest := Encoded(d, phrase, weight, start + k, items + [c]);
            WithOne(d, phrase, weight, start, k, c)
              == if d.words[w][c] < d.total[w] * 0.05 then Outcome(d, [])
                 else Outcome(rest.lexicon, Prefixed(Piece(w, c), rest.found))
  {
    hide Encoded, Encodings, Lexicon.CodesOf, Learned, Forget, WordAt, Prefixed;
    var w := WordAt(phrase, start, k);
    SameCodesOf(d, phrase, start, k);
    if k == |phrase| {
      EncodedWord(d, phrase, weight, items + [c]);
      PrefixedNone(Piece(w, c));
    } else {
      ForgetOther(d, phrase, w);
      EncodedRest(d, phrase, weight, start + k, items + [c]);
    }
  }

  lemma PrefixedNone(p: Piece)
    ensures Prefixed(p, [[]]) == [[p]]
  {
    var pss: seq<seq<Piece>> := [[]];
    assert pss[1..] == [] && [p] + pss[0] == [p];
  }

  lemma ForgetOther(d: Lexicon, phrase: string, w: string)
    requires w != phrase
    ensures forall c :: Forget(d, phrase).Qualifies(w, c) <==> d.Qualifies(w, c)
  {
  }

  lemma EncodedWord(d: Lexicon, phrase: string, weight: real, items: seq<string>)
    requires |items| == 1
    ensures Encoded(d, phrase, weight, |phrase|, items) == Outcome(Learned(d, phrase, items[0], weight), [[]])
  {
  }

  lemma EncodedRest(d: Lexicon, phrase: string, weight: real, start: nat, items: seq<string>)
    requires 0 < start <= |phrase| && (start == |phrase| ==> |items| > 1)
    ensures Encoded(d, phrase, weight, start, items) == Outcome(d, Encodings(Forget(d, phrase), phrase, start))
  {
  }

  /** The entries for `pss` have been appended. */
  ghost predicate Adds(before: seq<RawDictEntry>, n: nat, after: seq<RawDictEntry>, m: nat,
                       phrase: string, weight: real, base: seq<string>, pss: seq<seq<Piece>>) {
    after == before + EntriesFor(phrase, weight, base, pss) && m == n + |pss|
  }

  lemma AddsNone(entries: seq<RawDictEntry>, n: nat, phrase: string, weight: real, base: seq<string>)
    ensures Adds(entries, n, entries, n, phrase, weight, base, [])
  {
  }

  lemma AddsOne(before: seq<RawDictEntry>, n: nat, phrase: string, weight: real, base: seq<string>)
    ensures Adds(before, n, before + [RawDictEntry(base, phrase, weight)], n + 1, phrase, weight, base, [[]])
  {
    assert base + [] == base;
  }

  lemma AddsMore(a: seq<RawDictEntry>, i: nat, b: seq<RawDictEntry>, j: nat, c: seq<RawDictEntry>, k: nat,
                 phrase: string, weight: real, base: seq<string>, pss: seq<seq<Piece>>, qss: seq<seq<Piece>>)
    requires Adds(a, i, b, j, phrase, weight, base, pss) && Adds(b, j, c, k, phrase, weight, base, qss)
    ensures Adds(a, i, c, k, phrase, weight, base, pss + qss)
  {
    EntriesConcat(phrase, weight, base, pss, qss);
  }

  lemma AddsPrefixed(a: seq<RawDictEntry>, i: nat, b: seq<RawDictEntry>, j: nat,
                     phrase: string, weight: real, base: seq<string>, p: Piece, pss: seq<seq<Piece>>)
    requires Adds(a, i, b, j, phrase, weight, base + [p.code], pss)
    ensures Adds(a, i, b, j, phrase, weight, base, Prefixed(p, pss)) && (Prefixed(p, pss) == [] <==> pss == [])
  {
    EntriesPrefixed(phrase, weight, base, p, pss);
  }

  /** What the callers of Encode provide: a code made of the codes of the words before `start`. */
  ghost predicate Encodable(d: Lexicon, syllabary: set<string>, phrase: string, start: nat, items: seq<string>) {
    && Consistent(d, syllabary) && start <= |phrase| && (start == 0 <==> items == [])
    && (forall c :: c in items ==> IsToken(c) && c in syllabary)
    && (start == |phrase| && |items| == 1 ==> phrase in d.words && items[0] in d.words[phrase])
  }

  lemma EncodableStart(d: Lexicon, syllabary: set<string>, phrase: string, start: nat, items: seq<string>)
    requires Encodable(d, syllabary, phrase, start, items)
    ensures start <= |phrase| && d.words.Keys == d.total.Keys && (start == 0 <==> items == [])
    ensures items != [] ==> FromString(ToString(items)) == items && (|items| == 1 ==> ToString(items) == items[0])
    ensures items == [] ==> ToString(items) == "" && FromString(ToString(items)) == [""]
    ensures items != [] ==> ToString(items) != ""
    ensures start == |phrase| && phrase != "" ==> items != []
    ensures syllabary + (set s | s in items) == syllabary
  {
    if items != [] { SplitUndoesJoin(items); JoinFirst(items); ToStringStarts(items); }
  }

  lemma EncodableIsConsistent(d: Lexicon, syllabary: set<string>, phrase: string, start: nat, items: seq<string>)
    requires Encodable(d, syllabary, phrase, start, items)
    ensures Consistent(d, syllabary)
  {
  }

  lemma EncodableNext(d: Lexicon, syllabary: set<string>, phrase: string, start: nat, k: nat, items: seq<string>,
                      c: string)
    requires Encodable(d, syllabary, phrase, start, items) && start < |phrase| && 1 <= k <= |phrase| - start
    requires WordAt(phrase, start, k) in d.words && c in d.words[WordAt(phrase, start, k)]
    ensures Encodable(d, syllabary, phrase, start + k, items + [c]) && WordAt(phrase, start, k) in d.total
    ensures start == 0 <==> items == []
  {
    assert phrase[0..|phrase|] == phrase;
  }

  lemma StillEncodable(d: Lexicon, syllabary: set<string>, phrase: string, weight: real, start: nat, k: nat,
                       items: seq<string>)
    requires Encodable(d, syllabary, phrase, start, items) && start < |phrase| && 1 <= k <= |phrase| - start + 1
    ensures Encodable(ByLength(d, phrase, weight, start, k).lexicon, syllabary, phrase, start, items)
  {
    LearnedEncodable(d, syllabary, phrase, weight, |d.CodesOf(phrase)|, start, items);
  }

  lemma StillEncodableByCode(d: Lexicon, syllabary: set<string>, phrase: string, weight: real, start: nat, k: nat,
                             n: nat, items: seq<string>)
    requires Encodable(d, syllabary, phrase, start, items) && start < |phrase| && 1 <= k <= |phrase| - start
    requires n < |d.CodesOf(WordAt(phrase, start, k))|
    ensures var r, w := ByCode(d, phrase, weight, start, k, n).lexicon, WordAt(phrase, start, k);
            Encodable(r, syllabary, phrase, start, items) && w in r.words && d.CodesOf(w)[n] in r.words[w]
  {
    SameCodesOf(d, phrase, start, k);
    assert d.CodesOf(WordAt(phrase, start, k))[n] in d.CodesOf(WordAt(phrase, start, k));
    if k == |phrase| {
      LearnedEncodable(d, syllabary, phrase, weight, n, start, items);
      AsWordKeeps(d, phrase, weight, n);
    }
  }

  lemma LearnedEncodable(d: Lexicon, syllabary: set<string>, phrase: string, weight: real, n: nat, start: nat,
                         items: seq<string>)
    requires Encodable(d, syllabary, phrase, start, items) && start < |phrase| && n <= |d.CodesOf(phrase)|
    ensures Encodable(AsWord(d, phrase, weight, n).lexicon, syllabary, phrase, start, items)
  {
    AsWordKeeps(d, phrase, weight, n);
    var r := AsWord(d, phrase, weight, n).lexicon;
    forall w, c | w in r.words && c in r.words[w]
      ensures w in d.words && c in d.words[w]
    {
      assert w != phrase ==> w in Forget(r, phrase).words && r.words[w] == Forget(r, phrase).words[w];
      assert w != phrase ==> d.words[w] == Forget(d, phrase).words[w];
    }
  }

  function WeightIn(codes: map<string, real>, c: string): real {
    if c in codes then codes[c] else 0.0
  }

  /** The weight goes to the code of the word and to the total of the word, and nothing else changes. */
  ghost predicate Learns(d: Lexicon, word: string, code: string, weight: real, d': Lexicon) {
    && d'.words.Keys == d.words.Keys + {word} && d'.total.Keys == d.total.Keys + {word}
    && (forall w :: w in d.words && w != word ==> d'.words[w] == d.words[w])
    && (forall w :: w in d.total && w != word ==> d'.total[w] == d.total[w])
    && (var codes := if word in d.words then d.words[word] else map[];
        d'.words[word] == codes[code := (if code in codes then codes[code] else 0.0) + weight])
    && d'.total[word] == (if word in d.total then d.total[word] else 0.0) + weight
  }

  // ---------- the totals add up ----------

  ghost function Sum(codes: map<string, real>): real {
    if codes == map[] then 0.0 else
      var c :| c in codes;
      codes[c] + Sum(codes - {c})
  }

  lemma {:induction false} SumWithout(codes: map<string, real>, c: string)
    requires c in codes
    ensures Sum(codes) == codes[c] + Sum(codes - {c})
    decreases |codes|
  {
    var b :| b in codes && Sum(codes) == codes[b] + Sum(codes - {b});
    if b != c {
      SumWithout(codes - {b}, c);
      SumWithout(codes - {c}, b);
      assert codes - {b} - {c} == codes - {c} - {b};
    }
  }

  lemma SumUpdated(codes: map<string, real>, c: string, weight: real)
    ensures Sum(codes[c := weight]) == Sum(codes) - (if c in codes then codes[c] else 0.0) + weight
  {
    var next := codes[c := weight];
    SumWithout(next, c);
    assert next - {c} == codes - {c};
    if c in codes {
      SumWithout(codes, c);
    } else {
      assert codes - {c} == codes;
    }
  }

  /** The total of every word is the sum of the weights of its codes. */
  ghost predicate Balanced(d: Lexicon) {
    d.words.Keys == d.total.Keys && forall w :: w in d.words ==> d.total[w] == Sum(d.words[w])
  }

  /** Learning keeps it so. */
  lemma LearningKeepsBalance(d: Lexicon, word: string, code: string, weight: real, d': Lexicon)
    requires Balanced(d) && Learns(d, word, code, weight, d')
    ensures Balanced(d')
  {
    var codes := if word in d.words then d.words[word] else map[];
    SumUpdated(codes, code, (if code in codes then codes[code] else 0.0) + weight);
    assert Sum(map[]) == 0.0;
  }

  /** Every known word has a total weight, and its codes are syllables without spaces. The empty word is never looked
      up. */
  ghost predicate Consistent(d: Lexicon, syllabary: set<string>) {
    d.words.Keys == d.total.Keys
    && forall w, c :: w in d.words && w != "" && c in d.words[w] ==> IsToken(c) && c in syllabary
  }

  /** Learning a word under a code that is not empty keeps the collector consistent. */
  lemma LearningKeepsConsistent(d: Lexicon, syllabary: set<string>, word: string, code: string, weight: real,
                                d': Lexicon)
    requires Consistent(d, syllabary) && Learns(d, word, code, weight, d')
    requires (code != "" || word == "") && |FromString(code)| == 1
    ensures Consistent(d', syllabary + set s | s in FromString(code))
  {
    SplitsToOne(code);
    hide FromString;
    assert code in [code];
    forall w, c | w in d'.words && w != "" && c in d'.words[w]
      ensures IsToken(c) && (c == code || c in syllabary)
    {
      if w in d.words && c in d.words[w] { assert IsToken(c); } else { assert w == word && c == code; }
    }
  }

  /** So does creating an entry under such a code. */
  lemma CreatedKeepsConsistent(d: Lexicon, syllabary: set<string>, word: string, code: string, weight: real,
                               d': Lexicon)
    requires |FromString(code)| != 1 ==> d' == d
    requires |FromString(code)| == 1 ==> Learns(d, word, code, weight, d')
    ensures Consistent(d, syllabary) && (code != "" || word == "") ==>
      Consistent(d', syllabary + set s | s in FromString(code))
  {
    hide FromString, Learns;
    if |FromString(code)| == 1 && Consistent(d, syllabary) && (code != "" || word == "") {
      LearningKeepsConsistent(d, syllabary, word, code, weight, d');
    }
  }
}
