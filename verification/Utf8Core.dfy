/** UTF-8 validation: octets are checked against the grammar of RFC 3629. */
module Utf8Core {

  type Octet = bv8
  type CodePoint = bv32

  const CODE_POINT_MAX: CodePoint := 0x0010_ffff

  // ---------- section 4 of RFC 3629: the syntax of one character ----------

  predicate Tail(b: Octet) { 0x80 <= b <= 0xbf }

  predicate One(a: Octet) { a <= 0x7f }

  predicate Two(a: Octet, b: Octet) { 0xc2 <= a <= 0xdf && Tail(b) }

  predicate Three(a: Octet, b: Octet, c: Octet) {
    && Tail(c)
    && (|| (a == 0xe0 && 0xa0 <= b <= 0xbf)
        || (0xe1 <= a <= 0xec && Tail(b))
        || (a == 0xed && 0x80 <= b <= 0x9f)
        || (0xee <= a <= 0xef && Tail(b)))
  }

  predicate Four(a: Octet, b: Octet, c: Octet, d: Octet) {
    && Tail(c) && Tail(d)
    && (|| (a == 0xf0 && 0x90 <= b <= 0xbf)
        || (0xf1 <= a <= 0xf3 && Tail(b))
        || (a == 0xf4 && 0x80 <= b <= 0x8f))
  }

  predicate Character(s: seq<Octet>) {
    || (|s| == 1 && One(s[0]))
    || (|s| == 2 && Two(s[0], s[1]))
    || (|s| == 3 && Three(s[0], s[1], s[2]))
    || (|s| == 4 && Four(s[0], s[1], s[2], s[3]))
  }

  // ---------- section 3 of RFC 3629: what a character stands for ----------

  function Bits(b: Octet, mask: Octet): CodePoint { (b & mask) as CodePoint }

  function Value2(a: Octet, b: Octet): CodePoint { (Bits(a, 0x1f) << 6) | Bits(b, 0x3f) }

  function Value3(a: Octet, b: Octet, c: Octet): CodePoint {
    (Bits(a, 0x0f) << 12) | (Bits(b, 0x3f) << 6) | Bits(c, 0x3f)
  }

  function Value4(a: Octet, b: Octet, c: Octet, d: Octet): CodePoint {
    (Bits(a, 0x07) << 18) | (Bits(b, 0x3f) << 12) | (Bits(c, 0x3f) << 6) | Bits(d, 0x3f)
  }

  /** The bits of the octets that are marked x in the table, one after the other. */
  function Value(s: seq<Octet>): CodePoint {
    if |s| == 1 then s[0] as CodePoint
    else if |s| == 2 then Value2(s[0], s[1])
    else if |s| == 3 then Value3(s[0], s[1], s[2])
    else if |s| == 4 then Value4(s[0], s[1], s[2], s[3])
    else 0
  }

  // ---------- the parts of the decoder ----------

  predicate IsTrail(b: Octet) { b >> 6 == 0x2 }

  predicate IsSurrogate(cp: CodePoint) { 0xd800 <= cp <= 0xdfff }

  predicate IsCodePointValid(cp: CodePoint) { cp <= CODE_POINT_MAX && !IsSurrogate(cp) }

  function SequenceLength(lead: Octet): nat {
    if lead < 0x80 then 1
    else if lead >> 5 == 0x6 then 2
    else if lead >> 4 == 0xe then 3
    else if lead >> 3 == 0x1e then 4
    else 0
  }

  predicate IsOverlongSequence(cp: CodePoint, length: nat) {
    if cp < 0x80 then length != 1
    else if cp < 0x800 then length != 2
    else if cp < 0x1_0000 then length != 3
    else false
  }

  function Cp2(a: Octet, b: Octet): CodePoint {
    (((a as bv32) << 6) & 0x7ff) + (b & 0x3f) as bv32
  }

  function Cp3(a: Octet, b: Octet, c: Octet): CodePoint {
    (((a as bv32) << 12) & 0xffff) + (((b as bv32) << 6) & 0xfff) + (c & 0x3f) as bv32
  }

  function Cp4(a: Octet, b: Octet, c: Octet, d: Octet): CodePoint {
    (((a as bv32) << 18) & 0x1f_ffff) + (((b as bv32) << 12) & 0x3_ffff) + (((c as bv32) << 6) & 0xfff)
    + (d & 0x3f) as bv32
  }

  lemma Decodes2(a: Octet, b: Octet)
    requires SequenceLength(a) == 2 && IsTrail(b)
    ensures IsCodePointValid(Cp2(a, b)) && !IsOverlongSequence(Cp2(a, b), 2) <==> Two(a, b)
    ensures Cp2(a, b) == Value2(a, b)
  {
  }

  lemma Decodes3(a: Octet, b: Octet, c: Octet)
    requires SequenceLength(a) == 3 && IsTrail(b) && IsTrail(c)
    ensures IsCodePointValid(Cp3(a, b, c)) && !IsOverlongSequence(Cp3(a, b, c), 3) <==> Three(a, b, c)
    ensures Cp3(a, b, c) == Value3(a, b, c)
  {
  }

  lemma Decodes4(a: Octet, b: Octet, c: Octet, d: Octet)
    requires SequenceLength(a) == 4 && IsTrail(b) && IsTrail(c) && IsTrail(d)
    ensures IsCodePointValid(Cp4(a, b, c, d)) && !IsOverlongSequence(Cp4(a, b, c, d), 4) <==> Four(a, b, c, d)
    ensures Cp4(a, b, c, d) == Value4(a, b, c, d)
  {
  }

  // ---------- where a character is ----------

  /** The `n` octets from `i` on are a character. */
  ghost predicate CharacterAt(s: seq<Octet>, i: nat, n: nat) {
    i + n <= |s| && Character(s[i..i + n])
  }

  /** There is only one way to read a character at a position: its first octet tells the length. */
  lemma LengthFromLead(s: seq<Octet>, i: nat, n: nat)
    requires CharacterAt(s, i, n)
    ensures 0 < n && n == SequenceLength(s[i])
  {
    var c := s[i..i + n];
    assert c[0] == s[i];
  }

  /** Those of the `n - 1` octets after `i` that are there are trail octets. */
  ghost predicate TrailsAfter(s: seq<Octet>, i: nat, n: nat) {
    forall j :: i < j < i + n && j < |s| ==> IsTrail(s[j])
  }

  // ---------- decoding one character ----------

  datatype UtfError = Ok | NotEnoughRoom | InvalidLead | IncompleteSequence | OverlongSequence | InvalidCodePoint

  /** What reading `n` octets can end with, before the code point is looked at. */
  ghost function Reading(s: seq<Octet>, i: nat, n: nat): UtfError {
    if !TrailsAfter(s, i, n) then IncompleteSequence else if i + n > |s| then NotEnoughRoom else Ok
  }

  method GetSequence1(s: seq<Octet>, start: nat) returns (err: UtfError, it: nat, cp: CodePoint)
    requires start <= |s|
    ensures err == Reading(s, start, 1) && start <= it <= |s|
    ensures err == Ok ==> it == start && cp == s[start] as CodePoint
  {
    it, cp := start, 0;
    if it != |s| {
      cp := s[it] as CodePoint;
      return Ok, it, cp;
    }
    return NotEnoughRoom, it, cp;
  }

  method GetSequence2(s: seq<Octet>, start: nat) returns (err: UtfError, it: nat, cp: CodePoint)
    requires start <= |s|
    ensures err == Reading(s, start, 2) && start <= it <= |s|
    ensures err == Ok ==> it == start + 1 && cp == Cp2(s[start], s[start + 1])
  {
    err, it, cp := NotEnoughRoom, start, 0;
    if it != |s| {
      var c := s[it] as CodePoint;
      it := it + 1;
      if it != |s| {
        if IsTrail(s[it]) {
          cp := ((c << 6) & 0x7ff) + (s[it] & 0x3f) as CodePoint;
          err := Ok;
        } else {
          err := IncompleteSequence;
        }
      }
    }
  }

  method GetSequence3(s: seq<Octet>, start: nat) returns (err: UtfError, it: nat, cp: CodePoint)
    requires start <= |s|
    ensures err == Reading(s, start, 3) && start <= it <= |s|
    ensures err == Ok ==> it == start + 2 && cp == Cp3(s[start], s[start + 1], s[start + 2])
  {
    err, it, cp := NotEnoughRoom, start, 0;
    if it != |s| {
      var c := s[it] as CodePoint;
      it := it + 1;
      if it != |s| {
        if IsTrail(s[it]) {
          c := ((c << 12) & 0xffff) + (((s[it] as CodePoint) << 6) & 0xfff);
          it := it + 1;
          if it != |s| {
            if IsTrail(s[it]) {
              cp := c + (s[it] & 0x3f) as CodePoint;
              err := Ok;
            } else {
              err := IncompleteSequence;
            }
          }
        } else {
          err := IncompleteSequence;
        }
      }
    }
  }

  method GetSequence4(s: seq<Octet>, start: nat) returns (err: UtfError, it: nat, cp: CodePoint)
    requires start <= |s|
    ensures err == Reading(s, start, 4) && start <= it <= |s|
    ensures err == Ok ==> it == start + 3 && cp == Cp4(s[start], s[start + 1], s[start + 2], s[start + 3])
  {
    err, it, cp := NotEnoughRoom, start, 0;
    if it != |s| {
      var c := s[it] as CodePoint;
      it := it + 1;
      if it != |s| {
        if IsTrail(s[it]) {
          c := ((c << 18) & 0x1f_ffff) + (((s[it] as CodePoint) << 12) & 0x3_ffff);
          it := it + 1;
          if it != |s| {
            if IsTrail(s[it]) {
              c := c + (((s[it] as CodePoint) << 6) & 0xfff);
              it := it + 1;
              if it != |s| {
                if IsTrail(s[it]) {
                  cp := c + (s[it] & 0x3f) as CodePoint;
                  err := Ok;
                } else {
                  err := IncompleteSequence;
                }
              }
            } else {
              err := IncompleteSequence;
            }
          }
        } else {
          err := IncompleteSequence;
        }
      }
    }
  }

  /** The bits of the `n` octets at `i`. */
  function ValueAt(s: seq<Octet>, i: nat, n: nat): CodePoint
    requires i + n <= |s|
  {
    Value(s[i..i + n])
  }

  /** The checks on the code point accept exactly the characters. */
  lemma ChecksAreTheGrammar(s: seq<Octet>, i: nat, n: nat)
    requires i < |s| && n == SequenceLength(s[i]) && n > 0 && Reading(s, i, n) == Ok
    ensures IsCodePointValid(ValueAt(s, i, n)) && !IsOverlongSequence(ValueAt(s, i, n), n) <==> CharacterAt(s, i, n)
    ensures n == 1 ==> ValueAt(s, i, n) == s[i] as CodePoint
    ensures n == 2 ==> ValueAt(s, i, n) == Cp2(s[i], s[i + 1])
    ensures n == 3 ==> ValueAt(s, i, n) == Cp3(s[i], s[i + 1], s[i + 2])
    ensures n == 4 ==> ValueAt(s, i, n) == Cp4(s[i], s[i + 1], s[i + 2], s[i + 3])
  {
    hide Cp2, Cp3, Cp4, Value2, Value3, Value4, Two, Three, Four, IsTrail;
    var c := s[i..i + n];
    if n == 2 {
      Decodes2(c[0], c[1]);
    } else if n == 3 {
      Decodes3(c[0], c[1], c[2]);
    } else if n == 4 {
      Decodes4(c[0], c[1], c[2], c[3]);
    }
  }

  /** A character can be read with the length that its lead octet tells, or not at all. */
  lemma CharacterReads(s: seq<Octet>, i: nat)
    requires i < |s|
    ensures (exists n :: CharacterAt(s, i, n)) <==> CharacterAt(s, i, SequenceLength(s[i]))
    ensures CharacterAt(s, i, SequenceLength(s[i])) ==>
      Reading(s, i, SequenceLength(s[i])) == Ok && SequenceLength(s[i]) > 0
  {
    hide SequenceLength;
    forall n | CharacterAt(s, i, n)
      ensures 0 < n == SequenceLength(s[i])
    {
      LengthFromLead(s, i, n);
    }
    var n := SequenceLength(s[i]);
    if CharacterAt(s, i, n) {
      var c := s[i..i + n];
      forall j | i < j < i + n && j < |s|
        ensures IsTrail(s[j])
      {
        assert s[j] == c[j - i];
      }
    }
  }

  /** What is wrong with the octets from `i` on, if anything: the lead octet, then the trail octets, then the value. */
  ghost function Verdict(s: seq<Octet>, i: nat): UtfError
    requires i < |s|
  {
    var n := SequenceLength(s[i]);
    if n == 0 then InvalidLead
    else if Reading(s, i, n) != Ok then Reading(s, i, n)
    else if !IsCodePointValid(ValueAt(s, i, n)) then InvalidCodePoint
    else if IsOverlongSequence(ValueAt(s, i, n), n) then OverlongSequence
    else Ok
  }

  /** Accepts exactly the characters of section 4, and moves on only past one; `init` is what the code point
      was before. */
  method ValidateNext(s: seq<Octet>, start: nat, init: CodePoint) returns (err: UtfError, it: nat, cp: CodePoint)
    requires start < |s|
    ensures err == Ok <==> exists n :: CharacterAt(s, start, n)
    ensures err == Ok ==> start < it <= |s| && CharacterAt(s, start, it - start) && cp == ValueAt(s, start, it - start)
    ensures err != Ok ==> it == start && cp == init
    ensures err == Verdict(s, start)
  {
    hide Cp2, Cp3, Cp4, Value, CharacterAt, TrailsAfter, IsCodePointValid, IsOverlongSequence;
    CharacterReads(s, start);
    it, cp := start, init;
    var length := SequenceLength(s[it]);
    if length == 0 {
      return InvalidLead, it, cp;
    }
    var c: CodePoint;
    match length {
      case 1 => err, it, c := GetSequence1(s, it);
      case 2 => err, it, c := GetSequence2(s, it);
      case 3 => err, it, c := GetSequence3(s, it);
      case _ => err, it, c := GetSequence4(s, it);
    }
    if err == Ok {
      ChecksAreTheGrammar(s, start, length);
      if IsCodePointValid(c) {
        if !IsOverlongSequence(c, length) {
          return Ok, it + 1, c;
        }
        err := OverlongSequence;
      } else {
        err := InvalidCodePoint;
      }
    }
    // nothing has been read
    it := start;
  }
}
