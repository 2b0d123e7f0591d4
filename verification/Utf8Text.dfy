/** Texts: what the encodings UTF-8 (RFC 3629) and UTF-16 (RFC 2781) make of a sequence of code points. */
module Utf8Texts {
  import opened Utf8Core

  type CodeUnit = bv16

  lemma SplitSlice<T>(s: seq<T>, start: nat, pos: nat, a: seq<T>, b: seq<T>)
    requires start <= pos <= |s| && s[start..pos] == a + b
    ensures s[start..start + |a|] == a && s[start + |a|..pos] == b
  {
    assert s[start..start + |a|] == s[start..pos][..|a|] && s[start + |a|..pos] == s[start..pos][|a|..];
  }

  // ---------- UTF-8 ----------

  /** A conversion to an octet drops the higher bits. */
  function Low8(x: CodePoint): Octet { (x & 0xff) as Octet }

  function Lead2(cp: CodePoint): Octet { Low8((cp >> 6) | 0xc0) }

  function Lead3(cp: CodePoint): Octet { Low8((cp >> 12) | 0xe0) }

  function Lead4(cp: CodePoint): Octet { Low8((cp >> 18) | 0xf0) }

  function Trail(cp: CodePoint): Octet { Low8((cp & 0x3f) | 0x80) }

  function Encode(cp: CodePoint): seq<Octet> {
    if cp < 0x80 then [Low8(cp)]
    else if cp < 0x800 then [Lead2(cp), Trail(cp)]
    else if cp < 0x1_0000 then [Lead3(cp), Trail(cp >> 6), Trail(cp)]
    else [Lead4(cp), Trail(cp >> 12), Trail(cp >> 6), Trail(cp)]
  }

  lemma Encodes1(cp: CodePoint)
    requires cp < 0x80
    ensures One(Low8(cp)) && Low8(cp) as CodePoint == cp
  {
  }

  lemma Encodes2(cp: CodePoint)
    requires 0x80 <= cp < 0x800
    ensures Two(Lead2(cp), Trail(cp)) && Value2(Lead2(cp), Trail(cp)) == cp
  {
  }

  lemma Encodes3(cp: CodePoint)
    requires 0x800 <= cp < 0x1_0000 && !IsSurrogate(cp)
    ensures Three(Lead3(cp), Trail(cp >> 6), Trail(cp))
  {
  }

  lemma EncodesBits3(cp: CodePoint)
    requires cp < 0x1_0000
    ensures Value3(Lead3(cp), Trail(cp >> 6), Trail(cp)) == cp
  {
  }

  lemma Encodes4(cp: CodePoint)
    requires 0x1_0000 <= cp <= CODE_POINT_MAX
    ensures Four(Lead4(cp), Trail(cp >> 12), Trail(cp >> 6), Trail(cp))
  {
  }

  lemma EncodesBits4(cp: CodePoint)
    requires cp <= CODE_POINT_MAX
    ensures Value4(Lead4(cp), Trail(cp >> 12), Trail(cp >> 6), Trail(cp)) == cp
  {
  }

  lemma Restores1(a: Octet)
    requires One(a)
    ensures a as CodePoint < 0x80 && Low8(a as CodePoint) == a
  {
  }

  lemma Restores2(a: Octet, b: Octet)
    requires Two(a, b)
    ensures 0x80 <= Value2(a, b) < 0x800 && Lead2(Value2(a, b)) == a && Trail(Value2(a, b)) == b
  {
  }

  lemma Restores3(a: Octet, b: Octet, c: Octet)
    requires Three(a, b, c)
    ensures var cp := Value3(a, b, c);
            0x800 <= cp < 0x1_0000 && !IsSurrogate(cp) && Lead3(cp) == a && Trail(cp >> 6) == b && Trail(cp) == c
  {
  }

  lemma Restores4(a: Octet, b: Octet, c: Octet, d: Octet)
    requires Four(a, b, c, d)
    ensures var cp := Value4(a, b, c, d);
            0x1_0000 <= cp <= CODE_POINT_MAX && Lead4(cp) == a
            && Trail(cp >> 12) == b && Trail(cp >> 6) == c && Trail(cp) == d
  {
  }

  /** The octets of a valid code point are a character that stands for it. */
  lemma EncodedIsCharacter(cp: CodePoint)
    requires IsCodePointValid(cp)
    ensures Character(Encode(cp)) && Value(Encode(cp)) == cp
  {
    hide One, Two, Three, Four, Value2, Value3, Value4, Low8, Lead2, Lead3, Lead4, Trail;
    if cp < 0x80 {
      Encodes1(cp);
    } else if cp < 0x800 {
      Encodes2(cp);
    } else if cp < 0x1_0000 {
      Encodes3(cp);
      EncodesBits3(cp);
    } else {
      Encodes4(cp);
      EncodesBits4(cp);
    }
  }

  lemma Rewrites1(a: Octet)
    requires One(a)
    ensures IsCodePointValid(a as CodePoint) && Encode(a as CodePoint) == [a]
  {
    Restores1(a);
  }

  lemma Rewrites2(a: Octet, b: Octet)
    requires Two(a, b)
    ensures IsCodePointValid(Value2(a, b)) && Encode(Value2(a, b)) == [a, b]
  {
    hide Two, Value2, Lead2, Trail;
    Restores2(a, b);
  }

  lemma Rewrites3(a: Octet, b: Octet, c: Octet)
    requires Three(a, b, c)
    ensures IsCodePointValid(Value3(a, b, c)) && Encode(Value3(a, b, c)) == [a, b, c]
  {
    hide Three, Value3, Lead3, Trail;
    Restores3(a, b, c);
  }

  lemma Rewrites4(a: Octet, b: Octet, c: Octet, d: Octet)
    requires Four(a, b, c, d)
    ensures IsCodePointValid(Value4(a, b, c, d)) && Encode(Value4(a, b, c, d)) == [a, b, c, d]
  {
    hide Four, Value4, Lead4, Trail;
    Restores4(a, b, c, d);
  }

  /** A character is what its value is encoded as: there is no other way to write it. */
  lemma CharacterIsEncoded(c: seq<Octet>)
    requires Character(c)
    ensures IsCodePointValid(Value(c)) && Encode(Value(c)) == c
  {
    hide Encode, IsCodePointValid, One, Two, Three, Four, Value2, Value3, Value4;
    if |c| == 1 {
      Rewrites1(c[0]);
      assert c == [c[0]];
    } else if |c| == 2 {
      Rewrites2(c[0], c[1]);
      assert c == [c[0], c[1]];
    } else if |c| == 3 {
      Rewrites3(c[0], c[1], c[2]);
      assert c == [c[0], c[1], c[2]];
    } else {
      Rewrites4(c[0], c[1], c[2], c[3]);
      assert c == [c[0], c[1], c[2], c[3]];
    }
  }

  function Encoded(cps: seq<CodePoint>): seq<Octet> {
    if cps == [] then [] else Encode(cps[0]) + Encoded(cps[1..])
  }

  ghost predicate AllValid(cps: seq<CodePoint>) {
    forall i :: 0 <= i < |cps| ==> IsCodePointValid(cps[i])
  }

  function FirstLength(s: seq<Octet>): nat {
    if s == [] then 0 else SequenceLength(s[0])
  }

  /** A text is a concatenation of characters. */
  ghost predicate Text(s: seq<Octet>) {
    s == [] || (CharacterAt(s, 0, FirstLength(s)) && 0 < FirstLength(s) && Text(s[FirstLength(s)..]))
  }

  ghost function Decoded(s: seq<Octet>): seq<CodePoint>
    requires Text(s)
  {
    if s == [] then [] else [Value(s[..FirstLength(s)])] + Decoded(s[FirstLength(s)..])
  }

  function Flat(chars: seq<seq<Octet>>): seq<Octet> {
    if chars == [] then [] else chars[0] + Flat(chars[1..])
  }

  ghost predicate AllCharacters(chars: seq<seq<Octet>>) {
    forall i :: 0 <= i < |chars| ==> Character(chars[i])
  }

  lemma TextCons(c: seq<Octet>, s: seq<Octet>)
    requires Character(c)
    ensures FirstLength(c + s) == |c| && (c + s)[..|c|] == c && (c + s)[|c|..] == s
    ensures Text(c + s) <==> Text(s)
    ensures Text(s) ==> Decoded(c + s) == [Value(c)] + Decoded(s)
  {
    hide Character, SequenceLength;
    var t := c + s;
    assert t[..|c|] == c && t[|c|..] == s;
    assert CharacterAt(t, 0, |c|) by {
      assert t[0..0 + |c|] == c;
    }
    LengthFromLead(t, 0, |c|);
  }

  /** A text that is not empty is a character and a text. */
  lemma TextUncons(s: seq<Octet>) returns (c: seq<Octet>, rest: seq<Octet>)
    requires Text(s) && s != []
    ensures s == c + rest && |rest| < |s| && Character(c) && Text(rest) && Decoded(s) == [Value(c)] + Decoded(rest)
  {
    hide Character, Value, SequenceLength;
    var n := FirstLength(s);
    c, rest := s[..n], s[n..];
    assert s[0..0 + n] == c;
  }

  /** The recursive reading agrees with the grammar of section 4: any concatenation of characters is a text. */
  lemma {:induction false} TextFromCharacters(chars: seq<seq<Octet>>)
    requires AllCharacters(chars)
    ensures Text(Flat(chars))
  {
    if chars != [] {
      hide Character, Text;
      assert Character(chars[0]);
      TextFromCharacters(chars[1..]);
      TextCons(chars[0], Flat(chars[1..]));
    }
  }

  /** And every text is one, in the way that its decoding says. */
  lemma {:induction false} CharactersFromText(s: seq<Octet>) returns (chars: seq<seq<Octet>>)
    requires Text(s)
    ensures AllCharacters(chars) && Flat(chars) == s && |chars| == |Decoded(s)|
    ensures forall i :: 0 <= i < |chars| ==> Decoded(s)[i] == Value(chars[i])
    decreases |s|
  {
    if s == [] {
      chars := [];
    } else {
      hide Character, Value, Text, FirstLength;
      var c, rest := TextUncons(s);
      var others := CharactersFromText(rest);
      chars := [c] + others;
      assert chars[1..] == others;
    }
  }

  lemma TextIsConcatenation(s: seq<Octet>)
    ensures Text(s) <==> exists chars :: AllCharacters(chars) && Flat(chars) == s
  {
    hide Text, AllCharacters, Flat;
    if Text(s) {
      var chars := CharactersFromText(s);
    }
    forall chars | AllCharacters(chars) && Flat(chars) == s
      ensures Text(s)
    {
      TextFromCharacters(chars);
    }
  }

  lemma AppendAssociates<T>(a: seq<T>, b: seq<T>, c: seq<T>)
    ensures (a + b) + c == a + (b + c)
  {
  }

  lemma {:induction false} TextAppend(a: seq<Octet>, b: seq<Octet>)
    requires Text(a)
    ensures Text(a + b) <==> Text(b)
    ensures Text(b) ==> Decoded(a + b) == Decoded(a) + Decoded(b)
    decreases |a|
  {
    if a == [] {
      assert a + b == b;
    } else {
      hide Character, Value, Text, Decoded;
      var c, rest := TextUncons(a);
      AppendAssociates(c, rest, b);
      TextAppend(rest, b);
      TextCons(c, rest + b);
      if Text(b) {
        AppendAssociates([Value(c)], Decoded(rest), Decoded(b));
      }
    }
  }

  /** Decoding undoes encoding. */
  lemma {:induction false} DecodeUndoesEncode(cps: seq<CodePoint>)
    requires AllValid(cps)
    ensures Text(Encoded(cps)) && Decoded(Encoded(cps)) == cps
  {
    if cps != [] {
      hide Character, Value, Encode, IsCodePointValid, Text;
      DecodeUndoesEncode(cps[1..]);
      EncodedIsCharacter(cps[0]);
      TextCons(Encode(cps[0]), Encoded(cps[1..]));
    }
  }

  /** Encoding undoes decoding, and decoding gives only valid code points. */
  lemma {:induction false} EncodeUndoesDecode(s: seq<Octet>)
    requires Text(s)
    ensures AllValid(Decoded(s)) && Encoded(Decoded(s)) == s
    decreases |s|
  {
    if s != [] {
      hide Character, Value, Encode, IsCodePointValid, Text, Decoded;
      var c, rest := TextUncons(s);
      EncodeUndoesDecode(rest);
      CharacterIsEncoded(c);
      assert Decoded(s)[1..] == Decoded(rest);
    }
  }

  lemma {:induction false} EncodedAppend(a: seq<CodePoint>, b: seq<CodePoint>)
    ensures Encoded(a + b) == Encoded(a) + Encoded(b)
  {
    hide Encode;
    if a == [] {
      assert a + b == b;
    } else {
      assert (a + b)[1..] == a[1..] + b;
      EncodedAppend(a[1..], b);
    }
  }

  // ---------- UTF-16 ----------

  predicate IsLeadSurrogate(w: CodeUnit) { 0xd800 <= w <= 0xdbff }

  predicate IsTrailSurrogate(w: CodeUnit) { 0xdc00 <= w <= 0xdfff }

  function Low16(x: CodePoint): CodeUnit { (x & 0xffff) as CodeUnit }

  function LeadSurrogate(cp: CodePoint): CodeUnit { 0xd800 | Low16((cp - 0x1_0000) >> 10) }

  function TrailSurrogate(cp: CodePoint): CodeUnit { 0xdc00 | Low16((cp - 0x1_0000) & 0x3ff) }

  /** Section 2.1 of RFC 2781. */
  function Encode16(cp: CodePoint): seq<CodeUnit> {
    if cp < 0x1_0000 then [Low16(cp)] else [LeadSurrogate(cp), TrailSurrogate(cp)]
  }

  /** Section 2.2 of RFC 2781: a pair of surrogates. */
  function PairValue(lead: CodeUnit, trail: CodeUnit): CodePoint {
    ((((lead & 0x3ff) as CodePoint) << 10) | (trail & 0x3ff) as CodePoint) + 0x1_0000
  }

  predicate Character16(c: seq<CodeUnit>) {
    || (|c| == 1 && !IsLeadSurrogate(c[0]) && !IsTrailSurrogate(c[0]))
    || (|c| == 2 && IsLeadSurrogate(c[0]) && IsTrailSurrogate(c[1]))
  }

  function Value16(c: seq<CodeUnit>): CodePoint {
    if |c| == 1 then c[0] as CodePoint else if |c| == 2 then PairValue(c[0], c[1]) else 0
  }

  lemma EncodesUnit(cp: CodePoint)
    requires cp < 0x1_0000
    ensures Low16(cp) as CodePoint == cp
    ensures IsSurrogate(cp) <==> IsLeadSurrogate(Low16(cp)) || IsTrailSurrogate(Low16(cp))
  {
  }

  lemma RestoresUnit(w: CodeUnit)
    ensures w as CodePoint < 0x1_0000 && Low16(w as CodePoint) == w
  {
  }

  lemma EncodesPair(cp: CodePoint)
    requires 0x1_0000 <= cp <= CODE_POINT_MAX
    ensures IsLeadSurrogate(LeadSurrogate(cp)) && IsTrailSurrogate(TrailSurrogate(cp))
  {
  }

  lemma EncodesPairBits(cp: CodePoint)
    requires 0x1_0000 <= cp <= CODE_POINT_MAX
    ensures PairValue(LeadSurrogate(cp), TrailSurrogate(cp)) == cp
  {
  }

  lemma RestoresPair(lead: CodeUnit, trail: CodeUnit)
    requires IsLeadSurrogate(lead) && IsTrailSurrogate(trail)
    ensures 0x1_0000 <= PairValue(lead, trail) <= CODE_POINT_MAX
    ensures LeadSurrogate(PairValue(lead, trail)) == lead && TrailSurrogate(PairValue(lead, trail)) == trail
  {
  }

  lemma EncodedIsCharacter16(cp: CodePoint)
    requires IsCodePointValid(cp)
    ensures Character16(Encode16(cp)) && Value16(Encode16(cp)) == cp
  {
    hide Low16, LeadSurrogate, TrailSurrogate, PairValue, IsLeadSurrogate, IsTrailSurrogate, IsSurrogate;
    if cp < 0x1_0000 {
      EncodesUnit(cp);
    } else {
      EncodesPair(cp);
      EncodesPairBits(cp);
    }
  }

  lemma CharacterIsEncoded16(c: seq<CodeUnit>)
    requires Character16(c)
    ensures IsCodePointValid(Value16(c)) && Encode16(Value16(c)) == c
  {
    hide Low16, LeadSurrogate, TrailSurrogate, PairValue, IsLeadSurrogate, IsTrailSurrogate;
    if |c| == 1 {
      RestoresUnit(c[0]);
      EncodesUnit(c[0] as CodePoint);
    } else {
      RestoresPair(c[0], c[1]);
    }
  }

  function Encoded16(cps: seq<CodePoint>): seq<CodeUnit> {
    if cps == [] then [] else Encode16(cps[0]) + Encoded16(cps[1..])
  }

  function FirstLength16(ws: seq<CodeUnit>): nat {
    if ws == [] then 0 else if IsLeadSurrogate(ws[0]) then 2 else 1
  }

  ghost predicate Text16(ws: seq<CodeUnit>) {
    ws == [] || (FirstLength16(ws) <= |ws| && Character16(ws[..FirstLength16(ws)]) && Text16(ws[FirstLength16(ws)..]))
  }

  ghost function Decoded16(ws: seq<CodeUnit>): seq<CodePoint>
    requires Text16(ws)
  {
    if ws == [] then [] else [Value16(ws[..FirstLength16(ws)])] + Decoded16(ws[FirstLength16(ws)..])
  }

  lemma TextCons16(c: seq<CodeUnit>, ws: seq<CodeUnit>)
    requires Character16(c)
    ensures FirstLength16(c + ws) == |c| && (c + ws)[..|c|] == c && (c + ws)[|c|..] == ws
    ensures Text16(c + ws) <==> Text16(ws)
    ensures Text16(ws) ==> Decoded16(c + ws) == [Value16(c)] + Decoded16(ws)
  {
    var t := c + ws;
    assert t[..|c|] == c && t[|c|..] == ws;
    assert t[0] == c[0];
  }

  lemma TextUncons16(ws: seq<CodeUnit>) returns (c: seq<CodeUnit>, rest: seq<CodeUnit>)
    requires Text16(ws) && ws != []
    ensures ws == c + rest && |rest| < |ws| && Character16(c) && Text16(rest)
    ensures Decoded16(ws) == [Value16(c)] + Decoded16(rest)
  {
    hide Value16;
    var n := FirstLength16(ws);
    c, rest := ws[..n], ws[n..];
  }

  lemma {:induction false} TextAppend16(a: seq<CodeUnit>, b: seq<CodeUnit>)
    requires Text16(a)
    ensures Text16(a + b) <==> Text16(b)
    ensures Text16(b) ==> Decoded16(a + b) == Decoded16(a) + Decoded16(b)
    decreases |a|
  {
    if a == [] {
      assert a + b == b;
    } else {
      hide Character16, Value16, Text16, Decoded16;
      var c, rest := TextUncons16(a);
      AppendAssociates(c, rest, b);
      TextAppend16(rest, b);
      TextCons16(c, rest + b);
      if Text16(b) {
        AppendAssociates([Value16(c)], Decoded16(rest), Decoded16(b));
      }
    }
  }

  lemma {:induction false} DecodeUndoesEncode16(cps: seq<CodePoint>)
    requires AllValid(cps)
    ensures Text16(Encoded16(cps)) && Decoded16(Encoded16(cps)) == cps
  {
    if cps != [] {
      hide Character16, Value16, Encode16, IsCodePointValid, Text16;
      DecodeUndoesEncode16(cps[1..]);
      EncodedIsCharacter16(cps[0]);
      TextCons16(Encode16(cps[0]), Encoded16(cps[1..]));
    }
  }

  lemma {:induction false} EncodeUndoesDecode16(ws: seq<CodeUnit>)
    requires Text16(ws)
    ensures AllValid(Decoded16(ws)) && Encoded16(Decoded16(ws)) == ws
    decreases |ws|
  {
    if ws != [] {
      hide Character16, Value16, Encode16, IsCodePointValid, Text16, Decoded16;
      var c, rest := TextUncons16(ws);
      EncodeUndoesDecode16(rest);
      CharacterIsEncoded16(c);
      assert Decoded16(ws)[1..] == Decoded16(rest);
    }
  }

  lemma {:induction false} EncodedAppend16(a: seq<CodePoint>, b: seq<CodePoint>)
    ensures Encoded16(a + b) == Encoded16(a) + Encoded16(b)
  {
    hide Encode16;
    if a == [] {
      assert a + b == b;
    } else {
      assert (a + b)[1..] == a[1..] + b;
      EncodedAppend16(a[1..], b);
    }
  }

  /** The conversions between the encodings undo each other, in both directions. */
  lemma ConversionsUndoEachOther(s: seq<Octet>, ws: seq<CodeUnit>)
    ensures Text(s) ==> var there := Encoded16(Decoded(s)); Text16(there) && Encoded(Decoded16(there)) == s
    ensures Text16(ws) ==> var there := Encoded(Decoded16(ws)); Text(there) && Encoded16(Decoded(there)) == ws
  {
    hide Text, Text16, AllValid, Encoded, Encoded16;
    if Text(s) {
      EncodeUndoesDecode(s);
      DecodeUndoesEncode16(Decoded(s));
    }
    if Text16(ws) {
      EncodeUndoesDecode16(ws);
      DecodeUndoesEncode(Decoded16(ws));
    }
  }
}
