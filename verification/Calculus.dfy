/** Calculations: the rules of the spelling algebra that map characters, and the one that marks abbreviations. */
module Calculations {
  import opened Spellings
  import opened Utf8Core
  import opened Utf8Texts
  import Utf8Unchecked
  import Algebras

  // ---------- C strings ----------

  /** From `p` on, a code point 0 comes before the octets that are announced run out. */
  predicate Reading(z: seq<Octet>, p: nat)
    decreases |z| - p
  {
    && p < |z| && p + Utf8Unchecked.Advance(z, p) <= |z|
    && (Utf8Unchecked.Trusted(z, p) == 0 || Reading(z, p + Utf8Unchecked.Advance(z, p)))
  }

  /** The code points before that. */
  function Ahead(z: seq<Octet>, p: nat): seq<CodePoint>
    requires Reading(z, p)
    decreases |z| - p
  {
    var c := Utf8Unchecked.Trusted(z, p);
    if c == 0 then [] else [c] + Ahead(z, p + Utf8Unchecked.Advance(z, p))
  }

  /** A string that can be read by trusting its lead octets, which do not lead past the terminator. */
  predicate Readable(str: seq<Octet>) {
    Reading(str + [0], 0)
  }

  function Input(str: seq<Octet>): seq<CodePoint>
    requires Readable(str)
  {
    Ahead(str + [0], 0)
  }

  lemma {:induction false} AheadHasNoNul(z: seq<Octet>, p: nat)
    requires Reading(z, p)
    ensures 0 !in Ahead(z, p)
    decreases |z| - p
  {
    hide Utf8Unchecked.Trusted, Utf8Unchecked.Advance;
    if Utf8Unchecked.Trusted(z, p) != 0 {
      Utf8Unchecked.AdvancesOn(z, p);
      AheadHasNoNul(z, p + Utf8Unchecked.Advance(z, p));
    }
  }

  function UpToNul(cps: seq<CodePoint>): seq<CodePoint> {
    if cps == [] || cps[0] == 0 then [] else [cps[0]] + UpToNul(cps[1..])
  }

  lemma NulIsText()
    ensures Text([0]) && Decoded([0]) == [0]
  {
    TextCons([0], []);
    assert [0] + [] == [0];
  }

  lemma {:induction false} TextIsReading(z: seq<Octet>, p: nat)
    requires p <= |z| && Text(z[p..]) && 0 in Decoded(z[p..])
    ensures Reading(z, p) && Ahead(z, p) == UpToNul(Decoded(z[p..]))
    decreases |z| - p
  {
    hide Text, Decoded, Utf8Unchecked.Trusted, Utf8Unchecked.Advance;
    Utf8Unchecked.EmptyDecodes(z[p..]);
    Utf8Unchecked.NextInText(z, p);
    Utf8Unchecked.AdvancesOn(z, p);
    var c, next := Utf8Unchecked.Trusted(z, p), p + Utf8Unchecked.Advance(z, p);
    assert Decoded(z[p..])[1..] == Decoded(z[next..]);
    if c != 0 {
      TextIsReading(z, next);
    }
  }

  /** Every text can be read, and gives its code points up to the first 0. */
  lemma TextIsReadable(str: seq<Octet>)
    requires Text(str)
    ensures Readable(str) && Input(str) == UpToNul(Decoded(str)) && AllValid(Input(str))
  {
    hide Text, Decoded, Reading, Ahead, AllValid, UpToNul;
    NulIsText();
    TextAppend(str, [0]);
    assert (str + [0])[0..] == str + [0];
    assert (Decoded(str) + [0])[|Decoded(str)|] == 0;
    NulEnds(Decoded(str));
    TextIsReading(str + [0], 0);
    EncodeUndoesDecode(str);
    UpToNulIsPrefix(Decoded(str));
  }

  lemma {:induction false} NulEnds(cps: seq<CodePoint>)
    ensures UpToNul(cps + [0]) == UpToNul(cps)
  {
    if cps != [] {
      assert (cps + [0])[1..] == cps[1..] + [0];
      NulEnds(cps[1..]);
    }
  }

  lemma {:induction false} UpToNulIsPrefix(cps: seq<CodePoint>)
    ensures UpToNul(cps) <= cps && 0 !in UpToNul(cps)
    ensures UpToNul(cps) == cps || cps[|UpToNul(cps)|] == 0
    ensures AllValid(cps) ==> AllValid(UpToNul(cps))
  {
    hide IsCodePointValid;
    if cps != [] && cps[0] != 0 {
      UpToNulIsPrefix(cps[1..]);
    }
  }

  /** `c` has been read, and with what is ahead it makes up `rest`. */
  ghost predicate Fetched(z: seq<Octet>, p: nat, c: CodePoint, rest: seq<CodePoint>) {
    if c == 0 then rest == [] else Reading(z, p) && rest == [c] + Ahead(z, p)
  }

  /** Reads the next code point of a C string; it is 0 at the terminator. */
  method NextOf(z: seq<Octet>, start: nat) returns (p: nat, c: CodePoint)
    requires Reading(z, start)
    ensures start < p <= |z| && Fetched(z, p, c, Ahead(z, start))
  {
    hide Utf8Unchecked.Trusted, Utf8Unchecked.Advance;
    Utf8Unchecked.AdvancesOn(z, start);
    p, c := Utf8Unchecked.Next(z, start);
  }

  // ---------- transliteration: the map ----------

  /** A code point, as a key. */
  datatype Key = Key(cp: CodePoint)

  type CharMap = map<Key, CodePoint>

  /** The characters of two strings, paired: of several pairs for a character the last one holds. */
  function Paired(l: seq<CodePoint>, r: seq<CodePoint>): CharMap
    requires |l| <= |r|
  {
    if l == [] then map[] else Paired(l[..|l| - 1], r)[Key(l[|l| - 1]) := r[|l| - 1]]
  }

  lemma {:induction false} PairedMeans(l: seq<CodePoint>, r: seq<CodePoint>, i: nat)
    requires |l| <= |r| && i < |l| && forall j :: i < j < |l| ==> l[j] != l[i]
    ensures Key(l[i]) in Paired(l, r) && Paired(l, r)[Key(l[i])] == r[i]
  {
    if i < |l| - 1 {
      PairedMeans(l[..|l| - 1], r, i);
      assert l[|l| - 1] != l[i];
    }
  }

  lemma {:induction false} PairedOnly(l: seq<CodePoint>, r: seq<CodePoint>, c: CodePoint)
    requires |l| <= |r| && Key(c) in Paired(l, r)
    ensures exists i :: 0 <= i < |l| && l[i] == c && Paired(l, r)[Key(c)] == r[i]
  {
    var last := |l| - 1;
    if c != l[last] {
      PairedOnly(l[..last], r, c);
    } else {
      assert Paired(l, r)[Key(c)] == r[last];
    }
  }

  /** No image would end a C string. */
  ghost predicate NoNul(m: CharMap) {
    forall c :: c in m ==> m[c] != 0
  }

  ghost predicate ValidImages(m: CharMap) {
    forall c :: c in m ==> IsCodePointValid(m[c])
  }

  lemma PairedIsGood(l: seq<CodePoint>, r: seq<CodePoint>)
    requires |l| <= |r| && 0 !in r
    ensures NoNul(Paired(l, r)) && (AllValid(r) ==> ValidImages(Paired(l, r)))
  {
    hide IsCodePointValid, Paired;
    forall c | c in Paired(l, r)
      ensures Paired(l, r)[c] != 0 && (AllValid(r) ==> IsCodePointValid(Paired(l, r)[c]))
    {
      PairedOnly(l, r, c.cp);
    }
  }

  lemma PairedNext(l: seq<CodePoint>, r: seq<CodePoint>, k: nat)
    requires k < |l| && k < |r|
    ensures Paired(l[..k + 1], r) == Paired(l[..k], r)[Key(l[k]) := r[k]]
  {
    assert l[..k + 1][..k] == l[..k];
  }

  /** Gives a map where the two strings have the same length. */
  method Parse(left: seq<Octet>, right: seq<Octet>) returns (x: Option<CharMap>)
    requires Readable(left) && Readable(right)
    ensures x.Some? <==> |Input(left)| == |Input(right)|
    ensures x.Some? ==> x.value == Paired(Input(left), Input(right)) && NoNul(x.value)
    ensures x.Some? && Text(right) ==> ValidImages(x.value)
  {
    hide Reading, Ahead, Text, Paired, NoNul, ValidImages, AllValid;
    ghost var l, r := Input(left), Input(right);
    var zl, zr := left + [0], right + [0];
    var charMap: CharMap := map[];
    ghost var k := 0;
    assert charMap == Paired(l[..0], r) by {
      NothingPaired(l, r);
    }
    var pl, cl := NextOf(zl, 0);
    var pr, cr := NextOf(zr, 0);
    while cl != 0 && cr != 0
      invariant k <= |l| && k <= |r| && Fetched(zl, pl, cl, l[k..]) && Fetched(zr, pr, cr, r[k..])
      invariant charMap == Paired(l[..k], r) && pl <= |zl|
      decreases |zl| - pl
    {
      charMap := charMap[Key(cl) := cr];
      PairedNext(l, r, k);
      k := k + 1;
      pl, cl := NextOf(zl, pl);
      pr, cr := NextOf(zr, pr);
    }
    if cl == 0 && cr == 0 {
      assert l[..k] == l;
      AheadHasNoNul(zr, 0);
      PairedIsGood(l, r);
      if Text(right) {
        TextIsReadable(right);
      }
      return Some(charMap);
    }
    return None;
  }

  lemma NothingPaired(l: seq<CodePoint>, r: seq<CodePoint>)
    ensures Paired(l[..0], r) == map[]
  {
  }

  // ---------- transliteration: the text ----------

  function Map(m: CharMap, c: CodePoint): CodePoint {
    if Key(c) in m then m[Key(c)] else c
  }

  /** Each code point is replaced by its image. */
  function Image(m: CharMap, cps: seq<CodePoint>): seq<CodePoint> {
    if cps == [] then [] else Image(m, cps[..|cps| - 1]) + [Map(m, cps[|cps| - 1])]
  }

  lemma {:induction false} ImageAt(m: CharMap, cps: seq<CodePoint>, i: nat)
    requires i < |cps|
    ensures |Image(m, cps)| == |cps| && Image(m, cps)[i] == if Key(cps[i]) in m then m[Key(cps[i])] else cps[i]
    decreases |cps|
  {
    if i < |cps| - 1 {
      ImageAt(m, cps[..|cps| - 1], i);
    } else if |cps| > 1 {
      ImageAt(m, cps[..|cps| - 1], 0);
    }
  }

  const BUFFER_LEN := 256

  /** Before each code point there is room for one more. */
  ghost predicate Fits(m: CharMap, cps: seq<CodePoint>) {
    forall i :: 0 <= i < |cps| ==> |Encoded(Image(m, cps[..i]))| <= BUFFER_LEN - 7
  }

  predicate Touches(m: CharMap, cps: seq<CodePoint>) {
    exists i :: 0 <= i < |cps| && Key(cps[i]) in m
  }

  lemma TouchesExactly(m: CharMap, cps: seq<CodePoint>)
    ensures Touches(m, cps) <==> exists i :: 0 <= i < |cps| && Key(cps[i]) in m
  {
  }

  lemma EncodeIsShort(cp: CodePoint)
    ensures 1 <= |Encode(cp)| <= 4
  {
    hide Low8, Lead2, Lead3, Lead4, Trail;
  }

  lemma LeadsAreNotNul(cp: CodePoint)
    ensures Lead2(cp) != 0 && Lead3(cp) != 0 && Lead4(cp) != 0 && Trail(cp) != 0
    ensures 0 < cp < 0x80 ==> Low8(cp) != 0
  {
  }

  lemma EncodeHasNoNul(cp: CodePoint)
    requires cp != 0
    ensures 0 !in Encode(cp)
  {
    hide Low8, Lead2, Lead3, Lead4, Trail;
    LeadsAreNotNul(cp);
    LeadsAreNotNul(cp >> 6);
    LeadsAreNotNul(cp >> 12);
  }

  lemma {:induction false} EncodedHasNoNul(cps: seq<CodePoint>)
    requires 0 !in cps
    ensures 0 !in Encoded(cps)
  {
    if cps != [] {
      hide Encode;
      EncodeHasNoNul(cps[0]);
      EncodedHasNoNul(cps[1..]);
    }
  }

  /** Assigning from a buffer stops at the first terminator. */
  method Assign(buffer: array<Octet>) returns (s: seq<Octet>)
    requires 0 in buffer[..]
    ensures |s| < buffer.Length && s == buffer[..|s|] && buffer[|s|] == 0 && 0 !in s
  {
    var n := 0;
    while buffer[n] != 0
      invariant n < buffer.Length && 0 !in buffer[..n] && 0 in buffer[n..]
      decreases buffer.Length - n
    {
      n := n + 1;
    }
    return buffer[..n];
  }

  lemma ImageNext(m: CharMap, l: seq<CodePoint>, k: nat)
    requires k < |l|
    ensures Encoded(Image(m, l[..k + 1])) == Encoded(Image(m, l[..k])) + Encode(Map(m, l[k]))
  {
    hide Encode;
    assert l[..k + 1][..k] == l[..k];
    var c := Map(m, l[k]);
    EncodedAppend(Image(m, l[..k]), [c]);
    assert [c][1..] == [];
  }

  lemma {:induction false} ImageIsGood(m: CharMap, cps: seq<CodePoint>)
    requires NoNul(m) && 0 !in cps
    ensures 0 !in Image(m, cps)
    ensures ValidImages(m) && AllValid(cps) ==> AllValid(Image(m, cps))
  {
    hide IsCodePointValid;
    if cps != [] {
      ImageIsGood(m, cps[..|cps| - 1]);
    }
  }

  lemma EmptyInput()
    ensures Readable([]) && Input([]) == []
  {
    assert [] + [0] == [0 as Octet];
  }

  lemma FitsStart(m: CharMap, l: seq<CodePoint>)
    ensures Fits(m, l[..0]) && !Touches(m, l[..0]) && Encoded(Image(m, l[..0])) == []
    ensures l == [] ==> !Touches(m, l)
  {
  }

  lemma FitsNext(m: CharMap, l: seq<CodePoint>, k: nat)
    requires k < |l| && Fits(m, l[..k]) && |Encoded(Image(m, l[..k]))| <= BUFFER_LEN - 7
    ensures Fits(m, l[..k + 1])
    ensures Touches(m, l[..k + 1]) <==> Touches(m, l[..k]) || Key(l[k]) in m
  {
    hide Encoded, Image;
    var next := l[..k + 1];
    forall i | 0 <= i < |next|
      ensures |Encoded(Image(m, next[..i]))| <= BUFFER_LEN - 7
    {
      assert next[..i] == if i < k then l[..k][..i] else l[..k];
    }
    assert next == l[..k] + [l[k]];
  }

  lemma FitsNot(m: CharMap, l: seq<CodePoint>, k: nat)
    requires k < |l| && |Encoded(Image(m, l[..k]))| > BUFFER_LEN - 7
    ensures !Fits(m, l)
  {
  }

  lemma NulPosition(b: seq<Octet>, q: nat, out: seq<Octet>)
    requires q < |b| && 0 !in b[..q] && b[q] == 0
    requires |out| < |b| && out == b[..|out|] && b[|out|] == 0 && 0 !in out
    ensures out == b[..q]
  {
    assert forall j :: 0 <= j < q ==> b[j] == b[..q][j] != 0;
    assert forall j :: 0 <= j < |out| ==> b[j] == out[j] != 0;
  }

  /** What is read back from the buffer is all that has been written. */
  lemma Written(m: CharMap, str: seq<Octet>, b: seq<Octet>, q: nat, out: seq<Octet>)
    requires Readable(str) && NoNul(m) && q < |b| && b[..q] == Encoded(Image(m, Input(str))) && b[q] == 0
    requires |out| < |b| && out == b[..|out|] && b[|out|] == 0 && 0 !in out
    ensures out == Encoded(Image(m, Input(str)))
  {
    hide Reading, Ahead, NoNul, Image, Encoded;
    AheadHasNoNul(str + [0], 0);
    ImageIsGood(m, Input(str));
    EncodedHasNoNul(Image(m, Input(str)));
    NulPosition(b, q, out);
  }

  /** What is written for a text is a text, which stands for the image. */
  lemma ImageIsText(m: CharMap, str: seq<Octet>)
    requires Text(str) && NoNul(m) && ValidImages(m)
    ensures Readable(str) && Input(str) == UpToNul(Decoded(str))
    ensures var out := Encoded(Image(m, Input(str))); Text(out) && Decoded(out) == Image(m, Input(str))
  {
    hide Text, Decoded, Reading, Ahead, UpToNul, NoNul, ValidImages, Image, Encoded, AllValid;
    TextIsReadable(str);
    AheadHasNoNul(str + [0], 0);
    ImageIsGood(m, Input(str));
    DecodeUndoesEncode(Image(m, Input(str)));
  }

  /** Either the string becomes the encoded image of what it was, or nothing changes: it changes if a character has an
      image and everything fits in the buffer. */
  method Apply(charMap: CharMap, str: seq<Octet>) returns (modified: bool, out: seq<Octet>)
    requires Readable(str) && NoNul(charMap)
    ensures modified
       <==> ((exists i :: 0 <= i < |Input(str)| && Key(Input(str)[i]) in charMap) && Fits(charMap, Input(str)))
    ensures out == if modified then Encoded(Image(charMap, Input(str))) else str
  {
    hide Reading, Ahead, NoNul, Fits, Touches, Image, Encode, Encoded;
    TouchesExactly(charMap, Input(str));
    if str == [] {
      FitsStart(charMap, Input(str));
      assert Input(str) == [] by {
        EmptyInput();
      }
      return false, str;
    }
    ghost var l := Input(str);
    var z := str + [0];
    var buffer := new Octet[BUFFER_LEN];
    modified := false;
    var q: nat := 0;
    ghost var k := 0;
    FitsStart(charMap, l);
    var p, c := NextOf(z, 0);
    while c != 0
      invariant k <= |l| && Fetched(z, p, c, l[k..]) && p <= |z|
      invariant q <= BUFFER_LEN - 3 && buffer[..q] == Encoded(Image(charMap, l[..k]))
      invariant modified == Touches(charMap, l[..k]) && Fits(charMap, l[..k])
      decreases |z| - p
    {
      if q > BUFFER_LEN - 7 {
        // no room for one more code point: the string is left alone
        FitsNot(charMap, l, k);
        return false, str;
      }
      FitsNext(charMap, l, k);
      ImageNext(charMap, l, k);
      if Key(c) in charMap {
        c := charMap[Key(c)];
        modified := true;
      }
      EncodeIsShort(c);
      q := Utf8Unchecked.Append(c, buffer, q);
      k := k + 1;
      p, c := NextOf(z, p);
    }
    assert l[..k] == l;
    out := str;
    if modified {
      buffer[q] := 0;
      out := Assign(buffer);
      Written(charMap, str, buffer[..], q, out);
    }
  }

  lemma {:induction false} EncodedIsShort(cps: seq<CodePoint>)
    ensures |Encoded(cps)| <= 4 * |cps|
  {
    if cps != [] {
      hide Encode;
      EncodeIsShort(cps[0]);
      EncodedIsShort(cps[1..]);
    }
  }

  lemma {:induction false} ImageLength(m: CharMap, cps: seq<CodePoint>)
    ensures |Image(m, cps)| == |cps|
  {
    if cps != [] {
      ImageLength(m, cps[..|cps| - 1]);
    }
  }

  /** A text of up to 63 characters always fits. */
  lemma ShortTextFits(m: CharMap, cps: seq<CodePoint>)
    requires |cps| <= 63
    ensures Fits(m, cps)
  {
    hide Encoded, Image;
    forall i | 0 <= i < |cps|
      ensures |Encoded(Image(m, cps[..i]))| <= BUFFER_LEN - 7
    {
      ImageLength(m, cps[..i]);
      EncodedIsShort(Image(m, cps[..i]));
    }
  }

  /** A text whose image takes more than 253 octets never fits. */
  lemma LongTextDoesNotFit(m: CharMap, cps: seq<CodePoint>)
    requires |Encoded(Image(m, cps))| > 253
    ensures !Fits(m, cps)
  {
    if cps != [] {
      hide Encoded, Image, Encode;
      ImageNext(m, cps, |cps| - 1);
      assert cps[..|cps|] == cps;
      EncodeIsShort(Map(m, cps[|cps| - 1]));
    }
  }

  // ---------- abbreviation ----------

  type Regex = string -> string

  /** A transformation changes the string of a spelling, if there is one and it becomes another. */
  method Transform(replace: Regex, spelling: Algebras.Spelling) returns (result: bool, out: Algebras.Spelling)
    ensures result <==> spelling.str != "" && replace(spelling.str) != spelling.str
    ensures out == if result then spelling.(str := replace(spelling.str)) else spelling
  {
    out := spelling;
    if spelling.str == "" {
      return false, out;
    }
    var changed := replace(spelling.str);
    if changed == spelling.str {
      return false, out;
    }
    out := out.(str := changed);
    return true, out;
  }

  /** An abbreviation is a transformation that marks what it changes. */
  method Abbreviate(replace: Regex, spelling: Algebras.Spelling) returns (result: bool, out: Algebras.Spelling)
    ensures Some(out) == if result then Abbreviated(replace, spelling) else Some(spelling)
    ensures result <==> Abbreviated(replace, spelling).Some?
  {
    result, out := Transform(replace, spelling);
    if result {
      out := out.(sort := Algebras.Sort(ABBREVIATION, out.sort.credibility * 0.5));
    }
  }

  function Abbreviated(replace: Regex, spelling: Algebras.Spelling): Option<Algebras.Spelling> {
    var changed := replace(spelling.str);
    if spelling.str == "" || changed == spelling.str then None
    else Some(Algebras.Spelling(changed, Algebras.Sort(ABBREVIATION, spelling.sort.credibility * 0.5)))
  }

  function AbbreviationRule(replace: Regex): Algebras.Rule {
    Algebras.Rule(k => Abbreviated(replace, Algebras.Spelling(k, Algebras.PLAIN)), false, true)
  }

  lemma RuleMoves(replace: Regex, k: string, s: string, ms: Algebras.Sort)
    ensures Algebras.Moves(AbbreviationRule(replace), k, s, ms)
      <==> (s == k && ms == Algebras.PLAIN) || (Shortens(replace, k, s) && ms == Algebras.Sort(ABBREVIATION, 0.5))
  {
    assert AbbreviationRule(replace).apply(k) == Abbreviated(replace, Algebras.Spelling(k, Algebras.PLAIN));
  }

  lemma Combines(d: Algebras.Sort)
    ensures Algebras.Combine(Algebras.PLAIN, d) == d
    ensures Algebras.Combine(Algebras.Sort(ABBREVIATION, 0.5), d)
         == Algebras.Sort(Worse(d.kind, ABBREVIATION), d.credibility * 0.5)
  {
  }

  /** An abbreviation rule keeps all chains, and goes on with each to the shorter spelling: no better than an
      abbreviation, and half as credible. */
  lemma AbbreviationMarks(start: Algebras.Lists, rules: seq<Algebras.Rule>, replace: Regex, s: string, x: string,
                          c: Algebras.Sort)
    ensures c in Algebras.Chains(start, rules + [AbbreviationRule(replace)], s, x)
      <==> c in Algebras.Chains(start, rules, s, x) || ComesFromLonger(start, rules, replace, s, x, c)
  {
    hide Algebras.Chains, Algebras.Moves, Algebras.Combine, AbbreviationRule, Shortens;
    var rule := AbbreviationRule(replace);
    if c in Algebras.Chains(start, rules + [rule], s, x) {
      Algebras.ChainSplits(start, rules, rule, s, x, c);
      var k, d, ms :| d in Algebras.Chains(start, rules, k, x) && Algebras.Moves(rule, k, s, ms)
        && c == Algebras.Combine(ms, d);
      RuleMoves(replace, k, s, ms);
      Combines(d);
    }
    Combines(c);
    if c in Algebras.Chains(start, rules, s, x) {
      RuleMoves(replace, s, s, Algebras.PLAIN);
      Algebras.ChainExtends(start, rules, rule, s, s, x, Algebras.PLAIN, c);
    }
    if ComesFromLonger(start, rules, replace, s, x, c) {
      var k, d :| d in Algebras.Chains(start, rules, k, x) && Shortens(replace, k, s)
        && c == Algebras.Sort(Worse(d.kind, ABBREVIATION), d.credibility * 0.5);
      RuleMoves(replace, k, s, Algebras.Sort(ABBREVIATION, 0.5));
      Combines(d);
      Algebras.ChainExtends(start, rules, rule, k, s, x, Algebras.Sort(ABBREVIATION, 0.5), d);
    }
  }

  predicate Shortens(replace: Regex, k: string, s: string) {
    k != "" && s == replace(k) && s != k && s != ""
  }

  ghost predicate ComesFromLonger(start: Algebras.Lists, rules: seq<Algebras.Rule>, replace: Regex, s: string,
                                  x: string, c: Algebras.Sort) {
    exists k, d :: d in Algebras.Chains(start, rules, k, x) && Shortens(replace, k, s)
      && c == Algebras.Sort(Worse(d.kind, ABBREVIATION), d.credibility * 0.5)
  }
}
