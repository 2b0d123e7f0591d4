/** The conversions that check their input and throw where it is not well-formed. */
module Utf8Checked {
  import opened Spellings
  import opened Utf8Core
  import opened Utf8Texts

  datatype Exception =
    | NotEnoughRoomThrown
    | InvalidUtf8(octet: Octet)
    | InvalidUtf16(unit: CodeUnit)
    | InvalidCodePointThrown(cp: CodePoint)

  // ---------- how far a text can be read ----------

  /** Reading one more character at the end of a text. */
  lemma ReadNext(s: seq<Octet>, it: nat, n: nat)
    requires it <= |s| && Text(s[..it]) && CharacterAt(s, it, n)
    ensures Text(s[..it + n]) && Decoded(s[..it + n]) == Decoded(s[..it]) + [ValueAt(s, it, n)]
  {
    hide Character, Value, Text, Decoded;
    var c := s[it..it + n];
    assert s[..it + n] == s[..it] + c;
    assert c == c + [];
    TextOne(c);
    TextAppend(s[..it], c);
  }

  lemma TextOne(c: seq<Octet>)
    requires Character(c)
    ensures Text(c) && Decoded(c) == [Value(c)]
  {
    hide Character, Value;
    TextCons(c, []);
    assert c + [] == c;
  }

  /** Where no character can be read, there is no text. */
  lemma ReadStuck(s: seq<Octet>, it: nat)
    requires it < |s| && Text(s[..it])
    ensures Text(s) ==> exists n :: CharacterAt(s, it, n)
  {
    hide Character, Text, Decoded;
    assert s == s[..it] + s[it..];
    TextAppend(s[..it], s[it..]);
    if Text(s[it..]) {
      var c, rest := TextUncons(s[it..]);
      SplitSlice(s, it, |s|, c, rest);
      assert CharacterAt(s, it, |c|);
    }
  }

  method FindInvalid(s: seq<Octet>) returns (result: nat)
    ensures result <= |s| && Text(s[..result]) && (result == |s| <==> Text(s))
    ensures result < |s| ==> forall n :: !CharacterAt(s, result, n)
  {
    hide Text, CharacterAt, Verdict, ValueAt;
    EmptyIsText(s);
    result := 0;
    while result != |s|
      invariant result <= |s| && Text(s[..result])
      decreases |s| - result
    {
      var err, it, _ := ValidateNext(s, result, 0);
      if err != Ok {
        ReadStuck(s, result);
        return;
      }
      ReadNext(s, result, it - result);
      result := it;
    }
    assert s[..|s|] == s;
  }

  lemma EmptyIsText(s: seq<Octet>)
    ensures Text(s[..0]) && Decoded(s[..0]) == []
  {
  }

  method IsValid(s: seq<Octet>) returns (valid: bool)
    ensures valid <==> Text(s)
  {
    var invalid := FindInvalid(s);
    return invalid == |s|;
  }

  // ---------- single code points ----------

  method Append(cp: CodePoint, result: seq<Octet>) returns (thrown: Option<Exception>, out: seq<Octet>)
    ensures thrown == if IsCodePointValid(cp) then None else Some(InvalidCodePointThrown(cp))
    ensures out == if IsCodePointValid(cp) then result + Encode(cp) else result
  {
    hide IsCodePointValid, Low8;
    thrown, out := None, result;
    if !IsCodePointValid(cp) {
      return Some(InvalidCodePointThrown(cp)), out;
    }
    if cp < 0x80 {
      out := out + [Low8(cp)];
    } else if cp < 0x800 {
      out := out + [Low8((cp >> 6) | 0xc0)];
      out := out + [Low8((cp & 0x3f) | 0x80)];
    } else if cp < 0x1_0000 {
      out := out + [Low8((cp >> 12) | 0xe0)];
      out := out + [Low8(((cp >> 6) & 0x3f) | 0x80)];
      out := out + [Low8((cp & 0x3f) | 0x80)];
    } else {
      out := out + [Low8((cp >> 18) | 0xf0)];
      out := out + [Low8(((cp >> 12) & 0x3f) | 0x80)];
      out := out + [Low8(((cp >> 6) & 0x3f) | 0x80)];
      out := out + [Low8((cp & 0x3f) | 0x80)];
    }
  }

  // ---------- what can be wrong ----------

  /** The ranges of lead octets, and of octets that cannot be one. */
  lemma LeadExactly(b: Octet)
    ensures SequenceLength(b) == 0 <==> 0x80 <= b <= 0xbf || 0xf8 <= b
    ensures SequenceLength(b) == 1 <==> b <= 0x7f
    ensures SequenceLength(b) == 2 <==> 0xc0 <= b <= 0xdf
    ensures SequenceLength(b) == 3 <==> 0xe0 <= b <= 0xef
    ensures SequenceLength(b) == 4 <==> 0xf0 <= b <= 0xf7
    ensures IsTrail(b) <==> 0x80 <= b <= 0xbf
  {
  }

  /** An octet that cannot be a lead is found first; then one that is not a trail where a trail is announced; then that
      the text ends too early. */
  lemma FormExactly(s: seq<Octet>, i: nat)
    requires i < |s|
    ensures Verdict(s, i) == InvalidLead <==> 0x80 <= s[i] <= 0xbf || 0xf8 <= s[i]
    ensures var n := SequenceLength(s[i]);
      && (Verdict(s, i) == IncompleteSequence <==>
            exists j :: i < j < i + n && j < |s| && !(0x80 <= s[j] <= 0xbf))
      && (Verdict(s, i) == NotEnoughRoom <==>
            n > 0 && i + n > |s| && forall j :: i < j < |s| ==> 0x80 <= s[j] <= 0xbf)
  {
    LeadExactly(s[i]);
    forall j | 0 <= j < |s|
      ensures IsTrail(s[j]) <==> 0x80 <= s[j] <= 0xbf
    {
      LeadExactly(s[j]);
    }
    hide SequenceLength, IsTrail, ValueAt, IsCodePointValid, IsOverlongSequence;
  }

  /** Where the form is right, a value that is a surrogate or beyond the last code point is found first, and then one
      that could be written with less octets. */
  lemma ValueExactly(s: seq<Octet>, i: nat)
    requires i < |s| && Verdict(s, i) !in {InvalidLead, IncompleteSequence, NotEnoughRoom}
    ensures var n := SequenceLength(s[i]);
      && 0 < n && i + n <= |s|
      && (Verdict(s, i) == InvalidCodePoint <==>
            ValueAt(s, i, n) > 0x10_ffff || 0xd800 <= ValueAt(s, i, n) <= 0xdfff)
      && (Verdict(s, i) == OverlongSequence <==>
            ValueAt(s, i, n) <= 0x10_ffff && !(0xd800 <= ValueAt(s, i, n) <= 0xdfff) && |Encode(ValueAt(s, i, n))| < n)
  {
    var n := SequenceLength(s[i]);
    assert n <= 4 by { LeadExactly(s[i]); }
    hide SequenceLength, IsTrail, ValueAt, Low8, Lead2, Lead3, Lead4, Trail;
    assert i + n <= |s| && 0 < n;
    ValueFits(s, i);
    OverlongExactly(ValueAt(s, i, n), n);
  }

  lemma OverlongExactly(v: CodePoint, n: nat)
    requires |Encode(v)| <= n <= 4
    ensures IsOverlongSequence(v, n) <==> |Encode(v)| < n
  {
    hide Low8, Lead2, Lead3, Lead4, Trail;
  }

  /** A value is never too great for its octets. */
  lemma ValueFits(s: seq<Octet>, i: nat)
    requires i < |s| && 0 < SequenceLength(s[i]) && i + SequenceLength(s[i]) <= |s|
    ensures |Encode(ValueAt(s, i, SequenceLength(s[i])))| <= SequenceLength(s[i])
  {
    var n := SequenceLength(s[i]);
    LeadExactly(s[i]);
    var c := s[i..i + n];
    assert c[0] == s[i];
    hide SequenceLength, Low8, Lead2, Lead3, Lead4, Trail, Value2, Value3, Value4;
    if n == 1 {
      OneFits(c[0]);
    } else if n == 2 {
      TwoFit(c[0], c[1]);
    } else if n == 3 {
      ThreeFit(c[0], c[1], c[2]);
    } else {
      assert |Encode(Value(c))| <= 4;
    }
  }

  lemma OneFits(a: Octet)
    requires a <= 0x7f
    ensures a as CodePoint < 0x80
  {
  }

  lemma TwoFit(a: Octet, b: Octet)
    ensures Value2(a, b) < 0x800
  {
  }

  lemma ThreeFit(a: Octet, b: Octet, c: Octet)
    ensures Value3(a, b, c) < 0x1_0000
  {
  }

  /** What is thrown where the verdict is not good. The code point of an invalid one is not known any more: it is
      reported as 0. */
  ghost function Thrown(s: seq<Octet>, i: nat): Option<Exception>
    requires i < |s|
  {
    match Verdict(s, i)
    case Ok => None
    case NotEnoughRoom => Some(NotEnoughRoomThrown)
    case InvalidCodePoint => Some(InvalidCodePointThrown(0))
    case _ => Some(InvalidUtf8(s[i]))
  }

  method Next(s: seq<Octet>, start: nat) returns (thrown: Option<Exception>, it: nat, cp: CodePoint)
    requires start < |s|
    ensures thrown == Thrown(s, start) && (thrown.None? <==> exists n :: CharacterAt(s, start, n))
    ensures thrown.None? ==>
      start < it <= |s| && CharacterAt(s, start, it - start) && cp == ValueAt(s, start, it - start)
    ensures thrown.Some? ==> it == start
  {
    hide CharacterAt, Verdict, ValueAt;
    var err;
    err, it, cp := ValidateNext(s, start, 0);
    match err {
      case Ok => thrown := None;
      case NotEnoughRoom => thrown := Some(NotEnoughRoomThrown);
      case InvalidLead => thrown := Some(InvalidUtf8(s[it]));
      case IncompleteSequence => thrown := Some(InvalidUtf8(s[it]));
      case OverlongSequence => thrown := Some(InvalidUtf8(s[it]));
      case InvalidCodePoint => thrown := Some(InvalidCodePointThrown(cp));
    }
  }

  // ---------- moving backwards ----------

  /** `k` is the last octet before `pos` that is not a trail octet. */
  ghost predicate LastLead(s: seq<Octet>, k: nat, start: nat, pos: nat) {
    start <= k < pos <= |s| && !IsTrail(s[k]) && forall j :: k < j < pos ==> IsTrail(s[j])
  }

  lemma CharacterShape(c: seq<Octet>)
    requires Character(c)
    ensures c != [] && !IsTrail(c[0]) && forall j :: 0 < j < |c| ==> IsTrail(c[j])
  {
  }

  /** A text that is not empty is a text and a character. */
  lemma {:induction false} TextUnsnoc(s: seq<Octet>) returns (front: seq<Octet>, c: seq<Octet>)
    requires Text(s) && s != []
    ensures s == front + c && Text(front) && Character(c) && Decoded(s) == Decoded(front) + [Value(c)]
    decreases |s|
  {
    hide Character, Value, Text, Decoded;
    var first, rest := TextUncons(s);
    if rest == [] {
      front, c := [], first;
      assert Text(front) && Decoded(front) == [] && Decoded(rest) == [] by {
        EmptyIsText(s);
      }
    } else {
      var middle: seq<Octet>;
      middle, c := TextUnsnoc(rest);
      front := first + middle;
      TextCons(first, middle);
    }
  }

  /** A last character starts at the last lead octet. */
  lemma LastLeadStarts(s: seq<Octet>, start: nat, k: nat, pos: nat)
    requires start <= k < pos <= |s| && Character(s[k..pos])
    ensures LastLead(s, k, start, pos) && CharacterAt(s[..pos], k, pos - k) && pos - k == SequenceLength(s[k])
  {
    var c := s[k..pos];
    assert s[..pos][k..k + (pos - k)] == c && s[k] == c[0];
    LengthFromLead(s[..pos], k, pos - k);
    CharacterShape(c);
    hide Character, IsTrail, SequenceLength;
    assert forall j :: k < j < pos ==> s[j] == c[j - k];
  }

  /** In a text the last lead octet starts the last character. */
  lemma LastCharacter(s: seq<Octet>, start: nat, pos: nat)
    requires start <= pos <= |s|
    ensures Text(s[start..pos]) && start < pos ==> exists k: nat ::
      LastLead(s, k, start, pos) && DecodesAt(s[..pos], k) && Text(s[start..k])
      && Decoded(s[start..pos]) == Decoded(s[start..k]) + [ValueAt(s[..pos], k, SequenceLength(s[k]))]
  {
    if Text(s[start..pos]) && start < pos {
      hide Character, Value, Text, Decoded, LastLead, CharacterAt, SequenceLength;
      var front, c := TextUnsnoc(s[start..pos]);
      CharacterShape(c);
      var k := start + |front|;
      SplitSlice(s, start, pos, front, c);
      LastLeadStarts(s, start, k, pos);
    }
  }

  /** A character can be decoded at `k`. */
  ghost predicate DecodesAt(s: seq<Octet>, k: nat) {
    k < |s| && CharacterAt(s, k, SequenceLength(s[k]))
  }

  /** Which exception goes with what is wrong, and what it carries. */
  lemma ThrownExactly(s: seq<Octet>, i: nat)
    requires i < |s|
    ensures Thrown(s, i) == None <==> CharacterAt(s, i, SequenceLength(s[i])) && 0 < SequenceLength(s[i])
    ensures Thrown(s, i) == Some(NotEnoughRoomThrown) <==> Verdict(s, i) == NotEnoughRoom
    ensures Thrown(s, i) == Some(InvalidCodePointThrown(0)) <==> Verdict(s, i) == InvalidCodePoint
    ensures Thrown(s, i) == Some(InvalidUtf8(s[i])) <==>
      Verdict(s, i) in {InvalidLead, IncompleteSequence, OverlongSequence}
  {
    OkExactly(s, i);
    hide CharacterAt, SequenceLength, Verdict;
  }

  lemma OkExactly(s: seq<Octet>, i: nat)
    requires i < |s|
    ensures Verdict(s, i) == Ok <==> CharacterAt(s, i, SequenceLength(s[i])) && 0 < SequenceLength(s[i])
  {
    hide CharacterAt, SequenceLength, ValueAt, Reading, IsCodePointValid, IsOverlongSequence, Cp2, Cp3, Cp4;
    CharacterReads(s, i);
    if 0 < SequenceLength(s[i]) && Reading(s, i, SequenceLength(s[i])) == Ok {
      ChecksAreTheGrammar(s, i, SequenceLength(s[i]));
    }
  }

  /** A character that starts at `start` or later ends at `pos`. */
  ghost predicate CharacterEnds(s: seq<Octet>, start: nat, pos: nat)
    requires pos <= |s|
  {
    exists b :: start <= b < pos && Character(s[b..pos])
  }

  /** What can be decoded from the last lead octet ends at `pos` just when a character ends there, and so just when no
      stray trail octets are passed over. */
  lemma EndsExactly(s: seq<Octet>, start: nat, k: nat, pos: nat)
    requires start <= k < pos <= |s| && LastLead(s, k, start, pos) && DecodesAt(s[..pos], k)
    ensures CharacterEnds(s, start, pos) <==> pos - k == SequenceLength(s[k])
  {
    hide Character, SequenceLength;
    var n := SequenceLength(s[k]);
    assert s[..pos][k] == s[k];
    if pos - k == n {
      assert s[..pos][k..k + n] == s[k..pos];
      assert Character(s[k..pos]);
    }
    if b :| start <= b < pos && Character(s[b..pos]) {
      LastLeadStarts(s, start, b, pos);
      OneLastLead(s, start, pos, b, k);
    }
  }

  lemma OneLastLead(s: seq<Octet>, start: nat, pos: nat, b: nat, k: nat)
    requires pos <= |s| && LastLead(s, b, start, pos) && LastLead(s, k, start, pos)
    ensures b == k
  {
    hide IsTrail;
  }

  /** A stray trail octet is passed over. */
  lemma StrayIsPassedOver()
    ensures var s: seq<Octet> := [0x41, 0x80]; LastLead(s, 0, 0, 2) && DecodesAt(s[..2], 0) && !CharacterEnds(s, 0, 2)
  {
    var s: seq<Octet> := [0x41, 0x80];
    assert s[..2] == s && s[0..1] == [0x41];
    assert CharacterAt(s, 0, 1);
    EndsExactly(s, 0, 0, 2);
  }

  /** Decodes from the last lead octet before `pos`: on a text that gives the last character. */
  method Prior(s: seq<Octet>, pos: nat, start: nat) returns (thrown: Option<Exception>, it: nat, cp: CodePoint)
    requires start <= pos <= |s|
    ensures start <= it <= pos
    ensures Text(s[start..pos]) && start < pos ==>
      thrown.None? && Text(s[start..it]) && Decoded(s[start..pos]) == Decoded(s[start..it]) + [cp]
    ensures thrown.None? <==> exists k: nat :: LastLead(s, k, start, pos) && DecodesAt(s[..pos], k)
    ensures thrown.None? ==> LastLead(s, it, start, pos) && DecodesAt(s[..pos], it)
                             && cp == ValueAt(s[..pos], it, SequenceLength(s[it]))
    ensures thrown.None? ==> (it + SequenceLength(s[it]) == pos <==> CharacterEnds(s, start, pos))
  {
    hide CharacterAt, CharacterEnds, IsTrail, Thrown, ValueAt, Text, Decoded;
    LastCharacter(s, start, pos);
    it, cp := pos, 0;
    if it == start {
      return Some(NotEnoughRoomThrown), it, cp;
    }
    it := it - 1;
    while IsTrail(s[it])
      invariant start <= it < pos && forall j :: it < j < pos ==> IsTrail(s[j])
      decreases it
    {
      if it == start {
        return Some(InvalidUtf8(s[it])), it, cp;
      }
      it := it - 1;
    }
    var after: nat;
    thrown, after, cp := Next(s[..pos], it);
    CharacterReads(s[..pos], it);
    if thrown.None? {
      LengthFromLead(s[..pos], it, after - it);
      EndsExactly(s, start, it, pos);
    }
    assert LastLead(s, it, start, pos);
  }

  // ---------- whole texts ----------

  /** `s` is read up to `k`: to its end, or to where `thrown` is raised. */
  ghost predicate ReadUpTo(s: seq<Octet>, k: nat, thrown: Option<Exception>) {
    k <= |s| && Text(s[..k]) && if k == |s| then thrown == None else thrown.Some? && thrown == Thrown(s, k)
  }

  method Distance(s: seq<Octet>) returns (thrown: Option<Exception>, dist: nat)
    ensures thrown.None? <==> Text(s)
    ensures exists k: nat :: ReadUpTo(s, k, thrown) && dist == |Decoded(s[..k])|
  {
    hide Text, CharacterAt, Thrown, ValueAt, Decoded;
    EmptyIsText(s);
    var first := 0;
    dist := 0;
    while first < |s|
      invariant first <= |s| && Text(s[..first]) && dist == |Decoded(s[..first])|
    {
      var raised, it, _ := Next(s, first);
      if raised.Some? {
        ReadStuck(s, first);
        assert ReadUpTo(s, first, raised);
        return raised, dist;
      }
      ReadNext(s, first, it - first);
      first, dist := it, dist + 1;
    }
    assert s[..|s|] == s;
    thrown := None;
    assert ReadUpTo(s, first, thrown);
  }

  method Utf8To32(s: seq<Octet>) returns (thrown: Option<Exception>, out: seq<CodePoint>)
    ensures thrown.None? <==> Text(s)
    ensures exists k: nat :: ReadUpTo(s, k, thrown) && out == Decoded(s[..k])
  {
    hide Text, CharacterAt, Thrown, ValueAt, Decoded;
    EmptyIsText(s);
    var start := 0;
    out := [];
    while start != |s|
      invariant start <= |s| && Text(s[..start]) && out == Decoded(s[..start])
      decreases |s| - start
    {
      var raised, it, cp := Next(s, start);
      if raised.Some? {
        ReadStuck(s, start);
        assert ReadUpTo(s, start, raised);
        return raised, out;
      }
      ReadNext(s, start, it - start);
      start, out := it, out + [cp];
    }
    assert s[..|s|] == s;
    thrown := None;
    assert ReadUpTo(s, start, thrown);
  }

  /** Encodes up to the first code point that is not valid. */
  method Utf32To8(cps: seq<CodePoint>) returns (thrown: Option<Exception>, out: seq<Octet>)
    ensures thrown.None? <==> AllValid(cps)
    ensures exists k :: 0 <= k <= |cps| && AllValid(cps[..k]) && out == Encoded(cps[..k])
              && if k == |cps| then thrown.None?
                 else !IsCodePointValid(cps[k]) && thrown == Some(InvalidCodePointThrown(cps[k]))
  {
    hide IsCodePointValid, Encode;
    var start := 0;
    out := [];
    while start != |cps|
      invariant start <= |cps| && AllValid(cps[..start]) && out == Encoded(cps[..start])
      decreases |cps| - start
    {
      var raised, more := Append(cps[start], out);
      if raised.Some? {
        return raised, out;
      }
      EncodedSnoc(cps, start);
      start, out := start + 1, more;
    }
    assert cps[..|cps|] == cps;
    thrown := None;
  }

  lemma EncodedSnoc(cps: seq<CodePoint>, i: nat)
    requires i < |cps|
    ensures Encoded(cps[..i + 1]) == Encoded(cps[..i]) + Encode(cps[i])
  {
    hide Encode;
    assert cps[..i + 1] == cps[..i] + [cps[i]];
    EncodedAppend(cps[..i], [cps[i]]);
    assert [cps[i]][1..] == [];
  }

  // ---------- UTF-16 ----------

  const LEAD_SURROGATE_MIN: bv32 := 0xd800
  const TRAIL_SURROGATE_MIN: bv32 := 0xdc00
  const LEAD_OFFSET: bv32 := LEAD_SURROGATE_MIN - (0x1_0000 >> 10)
  /** The subtraction wraps around: this is not a small number. */
  const SURROGATE_OFFSET: bv32 := 0x1_0000 - (LEAD_SURROGATE_MIN << 10) - TRAIL_SURROGATE_MIN

  /** The offsets make the surrogates of RFC 2781. */
  lemma OffsetsMakeSurrogates(cp: CodePoint)
    requires 0xffff < cp <= CODE_POINT_MAX
    ensures Low16((cp >> 10) + LEAD_OFFSET) == LeadSurrogate(cp)
    ensures Low16((cp & 0x3ff) + TRAIL_SURROGATE_MIN) == TrailSurrogate(cp)
  {
  }

  function JoinSurrogates(lead: CodePoint, trail: CodePoint): CodePoint { (lead << 10) + trail + SURROGATE_OFFSET }

  /** The offset that has wrapped around wraps back. */
  lemma OffsetJoinsSurrogates(lead: CodeUnit, trail: CodeUnit)
    requires IsLeadSurrogate(lead) && IsTrailSurrogate(trail)
    ensures JoinSurrogates(lead as CodePoint, trail as CodePoint) == PairValue(lead, trail)
  {
  }

  lemma ReadNext16(ws: seq<CodeUnit>, it: nat, n: nat)
    requires it + n <= |ws| && Text16(ws[..it]) && Character16(ws[it..it + n])
    ensures Text16(ws[..it + n]) && Decoded16(ws[..it + n]) == Decoded16(ws[..it]) + [Value16(ws[it..it + n])]
  {
    hide Character16, Value16, Text16, Decoded16;
    var c := ws[it..it + n];
    assert ws[..it + n] == ws[..it] + c;
    assert Text16(c) && Decoded16(c) == [Value16(c)] by {
      EmptyIsText16(ws);
      TextCons16(c, []);
      assert c + [] == c;
    }
    TextAppend16(ws[..it], c);
  }

  lemma EmptyIsText16(ws: seq<CodeUnit>)
    ensures Text16(ws[..0]) && Decoded16(ws[..0]) == []
  {
  }

  /** What is thrown at `i`: a trail surrogate without a lead, or a lead surrogate without a trail. */
  function Thrown16(ws: seq<CodeUnit>, i: nat): Option<Exception>
    requires i < |ws|
  {
    if IsTrailSurrogate(ws[i]) then Some(InvalidUtf16(ws[i]))
    else if !IsLeadSurrogate(ws[i]) then None
    else if i + 1 == |ws| then Some(InvalidUtf16(ws[i]))
    else if IsTrailSurrogate(ws[i + 1]) then None
    else Some(InvalidUtf16(ws[i + 1]))
  }

  /** Where something is thrown there is no text. */
  lemma ReadStuck16(ws: seq<CodeUnit>, it: nat)
    requires it < |ws| && Text16(ws[..it]) && Thrown16(ws, it).Some?
    ensures !Text16(ws)
  {
    assert ws == ws[..it] + ws[it..];
    TextAppend16(ws[..it], ws[it..]);
  }

  /** Nothing is thrown just where a character can be read; otherwise it is the unit that is there, or the next one if a
      lead surrogate is there and the next one is no trail. */
  lemma Thrown16Exactly(ws: seq<CodeUnit>, i: nat)
    requires i < |ws|
    ensures Thrown16(ws, i) == None <==> Character16(ws[i..i + 1]) || (i + 1 < |ws| && Character16(ws[i..i + 2]))
    ensures Thrown16(ws, i) != None ==>
      Thrown16(ws, i) == Some(InvalidUtf16(if 0xd800 <= ws[i] <= 0xdbff && i + 1 < |ws| then ws[i + 1] else ws[i]))
  {
  }

  ghost predicate ReadUpTo16(ws: seq<CodeUnit>, k: nat, thrown: Option<Exception>) {
    k <= |ws| && Text16(ws[..k]) && if k == |ws| then thrown == None else thrown.Some? && thrown == Thrown16(ws, k)
  }

  lemma Characters16(ws: seq<CodeUnit>, i: nat)
    requires i < |ws|
    ensures !IsLeadSurrogate(ws[i]) && !IsTrailSurrogate(ws[i])
      ==> Character16(ws[i..i + 1]) && Value16(ws[i..i + 1]) == ws[i] as CodePoint
    ensures i + 1 < |ws| && IsLeadSurrogate(ws[i]) && IsTrailSurrogate(ws[i + 1])
      ==> Character16(ws[i..i + 2]) && Value16(ws[i..i + 2]) == PairValue(ws[i], ws[i + 1])
  {
    hide PairValue, IsLeadSurrogate, IsTrailSurrogate;
  }

  lemma LeadIsNoTrail(w: CodeUnit)
    ensures !(IsLeadSurrogate(w) && IsTrailSurrogate(w))
  {
  }

  /** Reads one code point. */
  method Next16(ws: seq<CodeUnit>, start: nat) returns (thrown: Option<Exception>, it: nat, cp: CodePoint)
    requires start < |ws|
    ensures thrown == Thrown16(ws, start) && start < it <= |ws|
    ensures thrown.None? ==> Character16(ws[start..it]) && cp == Value16(ws[start..it])
  {
    hide PairValue, JoinSurrogates, IsLeadSurrogate, IsTrailSurrogate, Character16, Value16;
    LeadIsNoTrail(ws[start]);
    Characters16(ws, start);
    thrown, it, cp := None, start + 1, ws[start] as CodePoint;
    if IsLeadSurrogate(ws[start]) {
      // a lead surrogate wants a trail
      if it != |ws| {
        var trail := ws[it];
        it := it + 1;
        if IsTrailSurrogate(trail) {
          OffsetJoinsSurrogates(ws[start], trail);
          cp := JoinSurrogates(cp, trail as CodePoint);
        } else {
          thrown := Some(InvalidUtf16(trail));
        }
      } else {
        thrown := Some(InvalidUtf16(ws[start]));
      }
    } else if IsTrailSurrogate(ws[start]) {
      // a trail without a lead
      thrown := Some(InvalidUtf16(ws[start]));
    }
  }

  method Utf16To8(ws: seq<CodeUnit>) returns (thrown: Option<Exception>, out: seq<Octet>)
    ensures thrown.None? <==> Text16(ws)
    ensures exists k: nat :: ReadUpTo16(ws, k, thrown) && out == Encoded(Decoded16(ws[..k]))
  {
    hide Text16, Decoded16, Encode, Character16, Value16, Thrown16, IsCodePointValid;
    EmptyIsText16(ws);
    var start := 0;
    out := [];
    while start != |ws|
      invariant start <= |ws| && Text16(ws[..start]) && out == Encoded(Decoded16(ws[..start]))
      decreases |ws| - start
    {
      var raised, it, cp := Next16(ws, start);
      if raised.Some? {
        ReadStuck16(ws, start);
        assert ReadUpTo16(ws, start, raised);
        return raised, out;
      }
      ReadNext16(ws, start, it - start);
      CharacterIsEncoded16(ws[start..it]);
      AppendOne(Decoded16(ws[..start]), cp);
      var failed, more := Append(cp, out);
      start, out := it, more;
    }
    assert ws[..|ws|] == ws;
    thrown := None;
    assert ReadUpTo16(ws, start, thrown);
  }

  lemma AppendOne(cps: seq<CodePoint>, cp: CodePoint)
    ensures Encoded(cps + [cp]) == Encoded(cps) + Encode(cp)
    ensures Encoded16(cps + [cp]) == Encoded16(cps) + Encode16(cp)
  {
    hide Encode, Encode16;
    EncodedAppend(cps, [cp]);
    EncodedAppend16(cps, [cp]);
    assert [cp][1..] == [];
  }

  lemma InRange(s: seq<Octet>, i: nat, n: nat)
    requires CharacterAt(s, i, n)
    ensures ValueAt(s, i, n) <= CODE_POINT_MAX
  {
    hide Character, Value, Encode;
    CharacterIsEncoded(s[i..i + n]);
  }

  method Utf8To16(s: seq<Octet>) returns (thrown: Option<Exception>, out: seq<CodeUnit>)
    ensures thrown.None? <==> Text(s)
    ensures exists k: nat :: ReadUpTo(s, k, thrown) && out == Encoded16(Decoded(s[..k]))
  {
    hide Text, CharacterAt, Thrown, ValueAt, Decoded, Low16, LeadSurrogate, TrailSurrogate, IsCodePointValid;
    EmptyIsText(s);
    var start := 0;
    out := [];
    while start != |s|
      invariant start <= |s| && Text(s[..start]) && out == Encoded16(Decoded(s[..start]))
      decreases |s| - start
    {
      var raised, it, cp := Next(s, start);
      if raised.Some? {
        ReadStuck(s, start);
        assert ReadUpTo(s, start, raised);
        return raised, out;
      }
      ReadNext(s, start, it - start);
      AppendOne(Decoded(s[..start]), cp);
      InRange(s, start, it - start);
      if cp > 0xffff {
        // two units are needed
        OffsetsMakeSurrogates(cp);
        out := out + [Low16((cp >> 10) + LEAD_OFFSET)];
        out := out + [Low16((cp & 0x3ff) + TRAIL_SURROGATE_MIN)];
      } else {
        out := out + [Low16(cp)];
      }
      start := it;
    }
    assert s[..|s|] == s;
    thrown := None;
    assert ReadUpTo(s, start, thrown);
  }
}
