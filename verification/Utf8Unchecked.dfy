/** The conversions that trust their input, and why they may on a text. */
module Utf8Unchecked {
  import opened Utf8Core
  import opened Utf8Texts

  /** Writes the octets of a code point at `q`: as many as the encoding has, and nothing else. */
  method Append(cp: CodePoint, buffer: array<Octet>, q: nat) returns (end: nat)
    requires q + |Encode(cp)| <= buffer.Length
    modifies buffer
    ensures end == q + |Encode(cp)|
    ensures buffer[..end] == old(buffer[..q]) + Encode(cp)
    ensures buffer[end..] == old(buffer[..])[end..]
  {
    hide Low8;
    end := q;
    if cp < 0x80 {
      buffer[end] := Low8(cp);
      end := end + 1;
    } else if cp < 0x800 {
      buffer[end] := Low8((cp >> 6) | 0xc0);
      buffer[end + 1] := Low8((cp & 0x3f) | 0x80);
      end := end + 2;
    } else if cp < 0x1_0000 {
      buffer[end] := Low8((cp >> 12) | 0xe0);
      buffer[end + 1] := Low8(((cp >> 6) & 0x3f) | 0x80);
      buffer[end + 2] := Low8((cp & 0x3f) | 0x80);
      end := end + 3;
    } else {
      buffer[end] := Low8((cp >> 18) | 0xf0);
      buffer[end + 1] := Low8(((cp >> 12) & 0x3f) | 0x80);
      buffer[end + 2] := Low8(((cp >> 6) & 0x3f) | 0x80);
      buffer[end + 3] := Low8((cp & 0x3f) | 0x80);
      end := end + 4;
    }
  }

  /** How far the lead octet makes the reader go. */
  function Advance(s: seq<Octet>, i: nat): nat
    requires i < |s|
  {
    if SequenceLength(s[i]) == 0 then 1 else SequenceLength(s[i])
  }

  /** What the reader makes of the octets that the lead octet announces: of a bad lead octet, itself. */
  function Trusted(s: seq<Octet>, i: nat): CodePoint
    requires i < |s| && i + Advance(s, i) <= |s|
  {
    match SequenceLength(s[i])
    case 2 => Cp2(s[i], s[i + 1])
    case 3 => Cp3(s[i], s[i + 1], s[i + 2])
    case 4 => Cp4(s[i], s[i + 1], s[i + 2], s[i + 3])
    case _ => s[i] as CodePoint
  }

  /** Where there is a character, trusting gives what checking gives. */
  lemma TrustedIsValue(s: seq<Octet>, i: nat, n: nat)
    requires i < |s| && CharacterAt(s, i, n)
    ensures Advance(s, i) == n && Trusted(s, i) == ValueAt(s, i, n)
  {
    hide Cp2, Cp3, Cp4, ValueAt, Reading, CharacterAt, IsCodePointValid, IsOverlongSequence;
    LengthFromLead(s, i, n);
    CharacterReads(s, i);
    ChecksAreTheGrammar(s, i, n);
  }

  /** The caller sees to it that the octets that the lead octet announces are there. */
  method Next(s: seq<Octet>, start: nat) returns (it: nat, cp: CodePoint)
    requires start < |s| && start + Advance(s, start) <= |s|
    ensures it == start + Advance(s, start) && cp == Trusted(s, start)
  {
    it, cp := start, s[start] as CodePoint;
    match SequenceLength(s[start]) {
      case 2 =>
        it := it + 1;
        cp := ((cp << 6) & 0x7ff) + (s[it] & 0x3f) as CodePoint;
      case 3 =>
        it := it + 1;
        cp := ((cp << 12) & 0xffff) + (((s[it] as CodePoint) << 6) & 0xfff);
        it := it + 1;
        cp := cp + (s[it] & 0x3f) as CodePoint;
      case 4 =>
        it := it + 1;
        cp := ((cp << 18) & 0x1f_ffff) + (((s[it] as CodePoint) << 12) & 0x3_ffff);
        it := it + 1;
        cp := cp + (((s[it] as CodePoint) << 6) & 0xfff);
        it := it + 1;
        cp := cp + (s[it] & 0x3f) as CodePoint;
      case _ =>
    }
    it := it + 1;
  }

  /** In a text, the next character is there to be trusted. */
  lemma NextInText(s: seq<Octet>, i: nat)
    requires i < |s| && Text(s[i..])
    ensures i + Advance(s, i) <= |s| && Text(s[i + Advance(s, i)..])
    ensures Decoded(s[i..]) == [Trusted(s, i)] + Decoded(s[i + Advance(s, i)..])
  {
    hide Character, Text, Decoded, Value, Trusted, Advance;
    var c, rest := TextUncons(s[i..]);
    assert c != [] by {
      assert |rest| < |s[i..]|;
    }
    assert s[i..i + |c|] == c && s[i + |c|..] == rest by {
      SplitSlice(s, i, |s|, c, rest);
    }
    TrustedIsValue(s, i, |c|);
  }

  /** From one lead octet to the next, all the octets that are announced are there. */
  predicate Announced(s: seq<Octet>, i: nat)
    requires i <= |s|
    decreases |s| - i
  {
    i == |s| || (i + Advance(s, i) <= |s| && Announced(s, i + Advance(s, i)))
  }

  /** How often the reader moves on. */
  function Moves(s: seq<Octet>, i: nat): nat
    requires i <= |s| && Announced(s, i)
    decreases |s| - i
  {
    if i == |s| then 0 else 1 + Moves(s, i + Advance(s, i))
  }

  /** A text announces nothing that is not there, and the reader moves on once for each code point. */
  lemma {:induction false} TextAnnounces(s: seq<Octet>, i: nat)
    requires i <= |s| && Text(s[i..])
    ensures Announced(s, i) && Moves(s, i) == |Decoded(s[i..])|
    decreases |s| - i
  {
    hide Text, Decoded, Trusted, Advance;
    EmptyDecodes(s[i..]);
    if i < |s| {
      NextInText(s, i);
      AdvancesOn(s, i);
      TextAnnounces(s, i + Advance(s, i));
    }
  }

  /** Counts the characters that are announced; on a text, these are its code points. */
  method Distance(s: seq<Octet>) returns (dist: nat)
    requires Announced(s, 0)
    ensures dist == Moves(s, 0)
    ensures Text(s) ==> dist == |Decoded(s)|
  {
    hide Text, Decoded, Trusted, Advance;
    var first := 0;
    dist := 0;
    while first < |s|
      invariant first <= |s| && Announced(s, first) && dist + Moves(s, first) == Moves(s, 0)
      decreases |s| - first
    {
      var it, _ := Next(s, first);
      AdvancesOn(s, first);
      first, dist := it, dist + 1;
    }
    assert s[0..] == s;
    if Text(s) {
      TextAnnounces(s, 0);
    }
  }

  lemma AdvancesOn(s: seq<Octet>, i: nat)
    requires i < |s|
    ensures Advance(s, i) > 0
  {
  }

  lemma EmptyDecodes(s: seq<Octet>)
    requires Text(s)
    ensures |Decoded(s)| == 0 <==> s == []
  {
  }
}
