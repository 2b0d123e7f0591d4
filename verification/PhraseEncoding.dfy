/** Codes as strings, and every way to encode a phrase with known words. */
module PhraseEncodings {
  import opened Orderings

  // ---------- raw codes ----------

  predicate IsSpace(c: char) {
    c == ' ' || ('\t' <= c <= '\r')
  }

  lemma SpacesExactly(c: char)
    ensures IsSpace(c) <==> c as int in {9, 10, 11, 12, 13, 32}
  {
  }

  predicate IsToken(s: string) {
    s != "" && forall c :: c in s ==> !IsSpace(c)
  }

  /** RawCode::ToString joins the tokens with single spaces. */
  function ToString(code: seq<string>): string {
    if code == [] then "" else if |code| == 1 then code[0] else code[0] + " " + ToString(code[1..])
  }

  function SkipSpaces(s: string): string {
    if s != "" && IsSpace(s[0]) then SkipSpaces(s[1..]) else s
  }

  /** The length of the longest prefix without a space. */
  function TokenLength(s: string): (n: nat)
    ensures n <= |s|
  {
    if s == "" || IsSpace(s[0]) then 0 else 1 + TokenLength(s[1..])
  }

  lemma {:induction false} SkipShortens(s: string)
    ensures |SkipSpaces(s)| <= |s| && (s != "" && IsSpace(s[0]) ==> |SkipSpaces(s)| < |s|)
  {
    if s != "" && IsSpace(s[0]) { SkipShortens(s[1..]); }
  }

  /** RawCode::FromString splits at spaces and compresses runs of them; a space at either end leaves an empty token. */
  function FromString(s: string): (code: seq<string>)
    ensures |code| > 0
    decreases |s|
  {
    var n := TokenLength(s);
    if n == |s| then [s] else
      SkipShortens(s[n..]);
      TokenStops(s);
      [s[..n]] + FromString(SkipSpaces(s[n..]))
  }

  lemma {:induction false} TokenStops(s: string)
    ensures TokenLength(s) < |s| ==> IsSpace(s[TokenLength(s)])
  {
    if s != "" && !IsSpace(s[0]) { TokenStops(s[1..]); }
  }

  lemma {:induction false} TokenThenRest(t: string, rest: string)
    requires forall c :: c in t ==> !IsSpace(c)
    requires rest == "" || IsSpace(rest[0])
    ensures TokenLength(t + rest) == |t|
  {
    if t == "" {
      assert t + rest == rest;
    } else {
      assert (t + rest)[1..] == t[1..] + rest;
      assert t[0] in t && forall c :: c in t[1..] ==> c in t;
      TokenThenRest(t[1..], rest);
    }
  }

  lemma {:induction false} ToStringStarts(code: seq<string>)
    requires code != [] && forall t :: t in code ==> IsToken(t)
    ensures ToString(code) != "" && !IsSpace(ToString(code)[0])
  {
    assert code[0] in code && code[0][0] in code[0];
  }

  lemma SplitFirst(t: string, rest: string)
    requires (forall c :: c in t ==> !IsSpace(c)) && rest != "" && !IsSpace(rest[0])
    ensures FromString(t + " " + rest) == [t] + FromString(rest)
  {
    var s, tail := t + " " + rest, " " + rest;
    assert s == t + tail;
    TokenThenRest(t, tail);
    assert s[..|t|] == t && s[|t|..] == tail && tail[1..] == rest;
    assert SkipSpaces(tail) == SkipSpaces(rest) == rest;
  }

  /** Splitting undoes joining, for codes made of tokens. */
  lemma {:induction false} SplitUndoesJoin(code: seq<string>)
    requires code != [] && forall t :: t in code ==> IsToken(t)
    ensures FromString(ToString(code)) == code
  {
    hide FromString, SkipSpaces, ToString, IsSpace;
    var t, rest := code[0], code[1..];
    assert t in code && IsToken(t);
    JoinFirst(code);
    if |code| == 1 {
      SplitsToOne(t);
      assert code == [t];
    } else {
      assert forall u :: u in rest ==> u in code;
      ToStringStarts(rest);
      SplitFirst(t, ToString(rest));
      SplitUndoesJoin(rest);
      assert code == [t] + rest;
    }
  }

  /** A token, then any number of spaces, then the rest: the rest is split on its own. */
  lemma SplitAtGap(t: string, gap: string, rest: string)
    requires (forall c :: c in t ==> !IsSpace(c)) && gap != "" && (forall c :: c in gap ==> IsSpace(c))
    requires rest == "" || !IsSpace(rest[0])
    ensures FromString(t + gap + rest) == [t] + FromString(rest)
  {
    hide FromString, IsSpace;
    var tail := gap + rest;
    var s := t + tail;
    assert s == t + gap + rest && tail[0] == gap[0] && gap[0] in gap;
    TokenThenRest(t, tail);
    SkipsGap(gap, rest);
    assert s[..|t|] == t && s[|t|..] == tail;
    SplitOff(s);
  }

  lemma SplitOff(s: string)
    requires TokenLength(s) < |s|
    ensures FromString(s) == [s[..TokenLength(s)]] + FromString(SkipSpaces(s[TokenLength(s)..]))
  {
  }

  lemma {:induction false} SkipsGap(gap: string, rest: string)
    requires (forall c :: c in gap ==> IsSpace(c)) && (rest == "" || !IsSpace(rest[0]))
    ensures SkipSpaces(gap + rest) == rest
  {
    if gap == "" {
      assert gap + rest == rest;
    } else {
      assert (gap + rest)[1..] == gap[1..] + rest && gap[0] in gap;
      SkipsGap(gap[1..], rest);
    }
  }

  lemma JoinFirst(code: seq<string>)
    requires code != []
    ensures ToString(code) == if |code| == 1 then code[0] else code[0] + " " + ToString(code[1..])
  {
  }

  /** A string is a single token just when splitting it gives itself alone and it is not empty. */
  lemma SplitsToOne(s: string)
    ensures |FromString(s)| == 1 <==> forall c :: c in s ==> !IsSpace(c)
    ensures |FromString(s)| == 1 ==> FromString(s) == [s]
  {
    TokenStops(s);
    if forall c :: c in s ==> !IsSpace(c) {
      TokenThenRest(s, "");
      assert s + "" == s;
    } else {
      NoLongToken(s);
    }
  }

  lemma {:induction false} NoLongToken(s: string)
    requires exists c :: c in s && IsSpace(c)
    ensures TokenLength(s) < |s|
  {
    if !IsSpace(s[0]) {
      assert s == [s[0]] + s[1..];
      NoLongToken(s[1..]);
    }
  }

  // ---------- encoding a phrase ----------

  /** The known words, with the weight of each of their codes, and their total weights. */
  datatype Lexicon = Lexicon(words: map<string, map<string, real>>, total: map<string, real>) {

    /** The code has at least one twentieth of the total weight of the word. */
    predicate Qualifies(w: string, c: string) {
      w in words && w in total && c in words[w] && words[w][c] >= total[w] * 0.05
    }

    ghost function CodesOf(w: string): seq<string> {
      if w in words then SortedKeys(words[w].Keys) else []
    }
  }

  /** A word of a split, with the code that was chosen for it. */
  datatype Piece = Piece(word: string, code: string)

  function Prefixed(p: Piece, pss: seq<seq<Piece>>): seq<seq<Piece>> {
    if pss == [] then [] else [[p] + pss[0]] + Prefixed(p, pss[1..])
  }

  ghost function WordAt(phrase: string, start: nat, k: nat): string
    requires start + k <= |phrase|
  {
    phrase[start..start + k]
  }

  /** All the encodings of the rest of a phrase, longest first word first. */
  ghost function Encodings(d: Lexicon, phrase: string, start: nat): seq<seq<Piece>>
    requires start <= |phrase|
    decreases |phrase| - start, 1
  {
    if start == |phrase| then [[]] else WithLengths(d, phrase, start, 1)
  }

  /** Those whose first word has at least `k` characters. */
  ghost function WithLengths(d: Lexicon, phrase: string, start: nat, k: nat): seq<seq<Piece>>
    requires start < |phrase| && 1 <= k <= |phrase| - start + 1
    decreases |phrase| - start, 0, |phrase| - k
  {
    if k == |phrase| - start + 1 then [] else
      WithLengths(d, phrase, start, k + 1) + WithCodes(d, phrase, start, k, |d.CodesOf(WordAt(phrase, start, k))|)
  }

  /** Those whose first word has `k` characters and one of its first `n` codes. */
  ghost function WithCodes(d: Lexicon, phrase: string, start: nat, k: nat, n: nat): seq<seq<Piece>>
    requires start < |phrase| && 1 <= k <= |phrase| - start && n <= |d.CodesOf(WordAt(phrase, start, k))|
    decreases |phrase| - start, 0, 0, n + 1
  {
    if n == 0 then [] else
      var w := WordAt(phrase, start, k);
      WithCodes(d, phrase, start, k, n - 1) + WithCode(d, phrase, start, k, d.CodesOf(w)[n - 1])
  }

  /** Those whose first word has `k` characters and the code `c`, if that code has enough weight. */
  ghost function WithCode(d: Lexicon, phrase: string, start: nat, k: nat, c: string): seq<seq<Piece>>
    requires start < |phrase| && 1 <= k <= |phrase| - start
    decreases |phrase| - start, 0, 0, 0
  {
    var w := WordAt(phrase, start, k);
    if d.Qualifies(w, c) then Prefixed(Piece(w, c), Encodings(d, phrase, start + k)) else []
  }

  // ---------- what the encodings are ----------

  /** The pieces split the rest of the phrase into known words, each with a code of enough weight. */
  ghost predicate Encodes(d: Lexicon, phrase: string, start: nat, ps: seq<Piece>)
    decreases |ps|
  {
    if ps == [] then start == |phrase|
    else
      var p := ps[0];
      p.word != "" && start + |p.word| <= |phrase| && phrase[start..start + |p.word|] == p.word
      && d.Qualifies(p.word, p.code) && Encodes(d, phrase, start + |p.word|, ps[1..])
  }

  lemma {:induction false} PrefixedExactly(p: Piece, pss: seq<seq<Piece>>, qs: seq<Piece>)
    ensures qs in Prefixed(p, pss) <==> qs != [] && qs[0] == p && qs[1..] in pss
  {
    if pss != [] {
      PrefixedExactly(p, pss[1..], qs);
      var first := [p] + pss[0];
      assert first[0] == p && first[1..] == pss[0];
      assert qs != [] && qs[0] == p ==> qs == [p] + qs[1..];
      assert pss == [pss[0]] + pss[1..];
    }
  }

  /** The enumeration contains exactly the valid encodings. */
  lemma {:induction false} EncodingsExactly(d: Lexicon, phrase: string, start: nat, ps: seq<Piece>)
    requires start <= |phrase| && d.words.Keys == d.total.Keys
    ensures ps in Encodings(d, phrase, start) <==> Encodes(d, phrase, start, ps)
    decreases |phrase| - start, 1
  {
    if start < |phrase| {
      WithLengthsExactly(d, phrase, start, 1, ps);
    }
  }

  lemma {:induction false} WithLengthsExactly(d: Lexicon, phrase: string, start: nat, k: nat, ps: seq<Piece>)
    requires start < |phrase| && 1 <= k <= |phrase| - start + 1 && d.words.Keys == d.total.Keys
    ensures ps in WithLengths(d, phrase, start, k)
      <==> ps != [] && |ps[0].word| >= k && Encodes(d, phrase, start, ps)
    decreases |phrase| - start, 0, |phrase| - k
  {
    if k <= |phrase| - start {
      hide Encodes, Encodings, Lexicon.CodesOf, Lexicon.Qualifies;
      var cs := d.CodesOf(WordAt(phrase, start, k));
      WithLengthsExactly(d, phrase, start, k + 1, ps);
      WithCodesExactly(d, phrase, start, k, |cs|, ps);
      assert cs[..|cs|] == cs;
      if ps != [] && |ps[0].word| == k && Encodes(d, phrase, start, ps) {
        EncodesFirst(d, phrase, start, ps);
      }
    }
  }

  lemma EncodesFirst(d: Lexicon, phrase: string, start: nat, ps: seq<Piece>)
    requires ps != [] && Encodes(d, phrase, start, ps)
    ensures start + |ps[0].word| <= |phrase| && ps[0].word == phrase[start..start + |ps[0].word|]
    ensures ps[0].code in d.CodesOf(ps[0].word)
  {
  }

  lemma {:induction false} WithCodesExactly(d: Lexicon, phrase: string, start: nat, k: nat, n: nat, ps: seq<Piece>)
    requires start < |phrase| && 1 <= k <= |phrase| - start && n <= |d.CodesOf(WordAt(phrase, start, k))|
    requires d.words.Keys == d.total.Keys
    ensures ps in WithCodes(d, phrase, start, k, n)
      <==> ps != [] && ps[0].word == WordAt(phrase, start, k) && ps[0].code in d.CodesOf(WordAt(phrase, start, k))[..n]
           && Encodes(d, phrase, start, ps)
    decreases |phrase| - start, 0, 0, n
  {
    if n > 0 {
      hide Encodes, Encodings, Prefixed, Lexicon.CodesOf, Lexicon.Qualifies;
      var w := WordAt(phrase, start, k);
      var cs := d.CodesOf(w);
      var p := Piece(w, cs[n - 1]);
      WithCodesExactly(d, phrase, start, k, n - 1, ps);
      PrefixedExactly(p, Encodings(d, phrase, start + k), ps);
      assert cs[..n] == cs[..n - 1] + [cs[n - 1]];
      if ps != [] && ps[0] == p {
        EncodingsExactly(d, phrase, start + k, ps[1..]);
        EncodesNext(d, phrase, start, k, p, ps);
      }
    }
  }

  lemma EncodesNext(d: Lexicon, phrase: string, start: nat, k: nat, p: Piece, ps: seq<Piece>)
    requires start < |phrase| && 1 <= k <= |phrase| - start && d.words.Keys == d.total.Keys
    requires ps != [] && ps[0] == p && p.word == WordAt(phrase, start, k)
    ensures Encodes(d, phrase, start, ps) <==> d.Qualifies(p.word, p.code) && Encodes(d, phrase, start + k, ps[1..])
  {
  }

  // ---------- the encodings are in order ----------

  /** Where the two first differ, `ps` has the longer word, or the same word with the earlier code. */
  ghost predicate Precedes(ps: seq<Piece>, qs: seq<Piece>) {
    exists n :: 0 <= n < |ps| && n < |qs| && ps[..n] == qs[..n]
      && (|ps[n].word| > |qs[n].word| || (ps[n].word == qs[n].word && Before(ps[n].code, qs[n].code)))
  }

  ghost predicate InPrecedence(pss: seq<seq<Piece>>) {
    forall i, j :: 0 <= i < j < |pss| ==> Precedes(pss[i], pss[j])
  }

  lemma PrecedenceConcat(a: seq<seq<Piece>>, b: seq<seq<Piece>>)
    requires InPrecedence(a) && InPrecedence(b) && forall x, y :: x in a && y in b ==> Precedes(x, y)
    ensures InPrecedence(a + b)
  {
    hide Precedes;
    forall i, j | 0 <= i < j < |a + b|
      ensures Precedes((a + b)[i], (a + b)[j])
    {
      if i < |a| <= j { assert a[i] in a && b[j - |a|] in b; }
    }
  }

  lemma PrecedesPrefixed(p: Piece, ps: seq<Piece>, qs: seq<Piece>)
    requires Precedes(ps, qs)
    ensures Precedes([p] + ps, [p] + qs)
  {
    var n :| 0 <= n < |ps| && n < |qs| && ps[..n] == qs[..n]
      && (|ps[n].word| > |qs[n].word| || (ps[n].word == qs[n].word && Before(ps[n].code, qs[n].code)));
    assert ([p] + ps)[..n + 1] == [p] + ps[..n] == [p] + qs[..n] == ([p] + qs)[..n + 1];
    assert ([p] + ps)[n + 1] == ps[n] && ([p] + qs)[n + 1] == qs[n];
  }

  lemma {:induction false} PrefixedInPrecedence(p: Piece, pss: seq<seq<Piece>>)
    requires InPrecedence(pss)
    ensures InPrecedence(Prefixed(p, pss))
  {
    if pss != [] {
      PrefixedInPrecedence(p, pss[1..]);
      var first, rest := [p] + pss[0], Prefixed(p, pss[1..]);
      hide Precedes;
      forall y | y in rest
        ensures Precedes(first, y)
      {
        PrefixedExactly(p, pss[1..], y);
        var j :| 0 <= j < |pss[1..]| && pss[1..][j] == y[1..];
        assert pss[j + 1] == y[1..] && y == [p] + y[1..];
        PrecedesPrefixed(p, pss[0], y[1..]);
      }
      PrecedenceConcat([first], rest);
    }
  }

  lemma PrecedesAtOnce(ps: seq<Piece>, qs: seq<Piece>)
    requires ps != [] && qs != []
    requires |ps[0].word| > |qs[0].word| || (ps[0].word == qs[0].word && Before(ps[0].code, qs[0].code))
    ensures Precedes(ps, qs)
  {
    assert ps[..0] == qs[..0];
  }

  /** The enumeration goes by the first word, the longest first, and the codes of a word in their order; then by the
      next word, and so on. */
  lemma {:induction false} EncodingsInOrder(d: Lexicon, phrase: string, start: nat)
    requires start <= |phrase| && d.words.Keys == d.total.Keys
    ensures InPrecedence(Encodings(d, phrase, start))
    decreases |phrase| - start, 1
  {
    if start < |phrase| {
      WithLengthsInOrder(d, phrase, start, 1);
    }
  }

  lemma {:induction false} WithLengthsInOrder(d: Lexicon, phrase: string, start: nat, k: nat)
    requires start < |phrase| && 1 <= k <= |phrase| - start + 1 && d.words.Keys == d.total.Keys
    ensures InPrecedence(WithLengths(d, phrase, start, k))
    decreases |phrase| - start, 0, |phrase| - k
  {
    if k <= |phrase| - start {
      hide Encodes, Lexicon.CodesOf, Precedes, WithCodes;
      var n := |d.CodesOf(WordAt(phrase, start, k))|;
      var longer, same := WithLengths(d, phrase, start, k + 1), WithCodes(d, phrase, start, k, n);
      WithLengthsInOrder(d, phrase, start, k + 1);
      WithCodesInOrder(d, phrase, start, k, n);
      forall x, y | x in longer && y in same
        ensures Precedes(x, y)
      {
        LongerPrecedes(d, phrase, start, k, n, x, y);
      }
      PrecedenceConcat(longer, same);
    }
  }

  lemma LongerPrecedes(d: Lexicon, phrase: string, start: nat, k: nat, n: nat, x: seq<Piece>, y: seq<Piece>)
    requires start < |phrase| && 1 <= k <= |phrase| - start && n <= |d.CodesOf(WordAt(phrase, start, k))|
    requires d.words.Keys == d.total.Keys && x in WithLengths(d, phrase, start, k + 1)
    requires y in WithCodes(d, phrase, start, k, n)
    ensures Precedes(x, y)
  {
    hide Encodes, Lexicon.CodesOf, WithLengths, WithCodes, Precedes;
    WithLengthsExactly(d, phrase, start, k + 1, x);
    WithCodesExactly(d, phrase, start, k, n, y);
    PrecedesAtOnce(x, y);
  }

  lemma EarlierPrecedes(d: Lexicon, phrase: string, start: nat, k: nat, n: nat, pss: seq<seq<Piece>>, x: seq<Piece>,
                        y: seq<Piece>)
    requires start < |phrase| && 1 <= k <= |phrase| - start && n < |d.CodesOf(WordAt(phrase, start, k))|
    requires d.words.Keys == d.total.Keys && x in WithCodes(d, phrase, start, k, n)
    requires var w := WordAt(phrase, start, k); y in Prefixed(Piece(w, d.CodesOf(w)[n]), pss)
    ensures Precedes(x, y)
  {
    hide Encodes, WithCodes, Prefixed, Precedes;
    var w := WordAt(phrase, start, k);
    var cs := d.CodesOf(w);
    WithCodesExactly(d, phrase, start, k, n, x);
    PrefixedExactly(Piece(w, cs[n]), pss, y);
    assert Before(x[0].code, cs[n]) by {
      assert Ascending(cs);
    }
    PrecedesAtOnce(x, y);
  }

  lemma {:induction false} WithCodesInOrder(d: Lexicon, phrase: string, start: nat, k: nat, n: nat)
    requires start < |phrase| && 1 <= k <= |phrase| - start && n <= |d.CodesOf(WordAt(phrase, start, k))|
    requires d.words.Keys == d.total.Keys
    ensures InPrecedence(WithCodes(d, phrase, start, k, n))
    decreases |phrase| - start, 0, 0, n
  {
    if n > 0 {
      hide Encodings, Prefixed, Precedes, Lexicon.CodesOf, Lexicon.Qualifies;
      var w := WordAt(phrase, start, k);
      var p := Piece(w, d.CodesOf(w)[n - 1]);
      var before, tails := WithCodes(d, phrase, start, k, n - 1), Encodings(d, phrase, start + k);
      WithCodesInOrder(d, phrase, start, k, n - 1);
      EncodingsInOrder(d, phrase, start + k);
      PrefixedInPrecedence(p, tails);
      forall x, y | x in before && y in Prefixed(p, tails)
        ensures Precedes(x, y)
      {
        EarlierPrecedes(d, phrase, start, k, n - 1, tails, x, y);
      }
      PrecedenceConcat(before, Prefixed(p, tails));
      assert before + [] == before;
    }
  }

  ghost predicate Distinct(pss: seq<seq<Piece>>) {
    forall i, j :: 0 <= i < j < |pss| ==> pss[i] != pss[j]
  }

  /** So it lists no encoding twice. */
  lemma EncodingsDistinct(d: Lexicon, phrase: string, start: nat)
    requires start <= |phrase| && d.words.Keys == d.total.Keys
    ensures Distinct(Encodings(d, phrase, start))
  {
    hide Encodings, Precedes;
    var pss := Encodings(d, phrase, start);
    EncodingsInOrder(d, phrase, start);
    forall i, j | 0 <= i < j < |pss|
      ensures pss[i] != pss[j]
    {
      assert Precedes(pss[i], pss[j]);
      NonePrecedesItself(pss[i]);
    }
  }

  lemma NonePrecedesItself(ps: seq<Piece>)
    ensures !Precedes(ps, ps)
  {
    forall n | 0 <= n < |ps|
      ensures !Before(ps[n].code, ps[n].code)
    {
      BeforeIrreflexive(ps[n].code);
    }
  }

  lemma CodeIsNew(cs: seq<string>, n: nat)
    requires Ascending(cs) && n < |cs|
    ensures cs[n] !in cs[..n]
  {
    forall i | 0 <= i < n ensures cs[i] != cs[n] { BeforeIrreflexive(cs[n]); }
  }

  /** The words of an encoding are a split of the phrase. */
  function WordsOf(ps: seq<Piece>): string {
    if ps == [] then "" else ps[0].word + WordsOf(ps[1..])
  }

  lemma {:induction false} EncodingsSplitThePhrase(d: Lexicon, phrase: string, start: nat, ps: seq<Piece>)
    requires start <= |phrase| && Encodes(d, phrase, start, ps)
    ensures WordsOf(ps) == phrase[start..]
    decreases |ps|
  {
    if ps != [] {
      var next := start + |ps[0].word|;
      EncodingsSplitThePhrase(d, phrase, next, ps[1..]);
      assert phrase[start..] == phrase[start..next] + phrase[next..];
    }
  }
}
