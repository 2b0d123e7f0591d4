/** What a compiled prism answers: exact keys, keys that are prefixes, and the syllables of a key.
    The double-array trie is specified by its sorted key list; a key's value is its rank. */
module PrismImages {
  import opened Spellings

  datatype Match = Match(value: nat, length: nat)

  datatype Descriptor = Descriptor(syllable: int, kind: SpellingType, credibility: real)

  datatype Image = Image(keys: seq<string>, spellings: Option<seq<seq<Descriptor>>>) {

    /** The rank of `key`, or -1. */
    function Rank(key: string): (r: int)
      ensures -1 <= r < |keys|
      ensures r == -1 <==> key !in keys
      ensures r != -1 ==> keys[r] == key
    {
      RankIn(keys, key)
    }

    /** The keys that are prefixes of `s`, shortest first. */
    function Matches(s: string): (ms: seq<Match>)
      ensures forall i :: 0 <= i < |ms| ==> ms[i].length <= |s|
    {
      MatchesUpTo(s, |s|)
    }

    /** `m` is the match of the prefix of `s` that is `m.length` long. */
    predicate MatchOf(s: string, m: Match) {
      m.length <= |s| && s[..m.length] in keys && m.value == Rank(s[..m.length])
    }

    function MatchesUpTo(s: string, n: nat): (ms: seq<Match>)
      requires n <= |s|
      ensures forall i :: 0 <= i < |ms| ==> ms[i].length <= n
    {
      var rest := if n == 0 then [] else MatchesUpTo(s, n - 1);
      if s[..n] in keys then rest + [Match(Rank(s[..n]), n)] else rest
    }

    /** What draining the accessor of a spelling yields. */
    function Syllables(value: nat): (ds: seq<Descriptor>)
      ensures ds != []
    {
      if spellings.Some? && value < |spellings.value| && spellings.value[value] != [] then
        spellings.value[value]
      else
        [Descriptor(value, NORMAL, 1.0)]
    }
  }

  function RankIn(keys: seq<string>, key: string): (r: int)
    ensures -1 <= r < |keys|
    ensures r == -1 <==> key !in keys
    ensures r != -1 ==> keys[r] == key && key !in keys[..r]
  {
    if keys == [] then -1
    else if keys[0] == key then 0
    else
      var r := RankIn(keys[1..], key);
      if r == -1 then -1 else
        assert keys[..r + 1] == [keys[0]] + keys[1..][..r];
        r + 1
  }

  lemma {:induction false} MatchesUpToExact(img: Image, s: string, n: nat, m: Match)
    requires n <= |s|
    ensures m in img.MatchesUpTo(s, n) <==> m.length <= n && img.MatchOf(s, m)
  {
    if n > 0 {
      MatchesUpToExact(img, s, n - 1, m);
    }
  }

  /** The shorter matches come first. */
  lemma {:induction false} MatchesAscend(img: Image, s: string, n: nat)
    requires n <= |s|
    ensures forall i, j :: 0 <= i < j < |img.MatchesUpTo(s, n)| ==>
              img.MatchesUpTo(s, n)[i].length < img.MatchesUpTo(s, n)[j].length
  {
    if n > 0 {
      var rest := img.MatchesUpTo(s, n - 1);
      MatchesAscend(img, s, n - 1);
    }
  }

  lemma MatchesExactly(img: Image, s: string)
    ensures forall m :: m in img.Matches(s) <==> img.MatchOf(s, m)
    ensures forall i, j :: 0 <= i < j < |img.Matches(s)| ==> img.Matches(s)[i].length < img.Matches(s)[j].length
  {
    hide Image.MatchesUpTo, Image.MatchOf;
    forall m ensures m in img.Matches(s) <==> img.MatchOf(s, m) {
      MatchesUpToExact(img, s, |s|, m);
      MatchLength(img, s, m);
    }
    MatchesAscend(img, s, |s|);
  }

  lemma MatchLength(img: Image, s: string, m: Match)
    ensures img.MatchOf(s, m) ==> m.length <= |s|
  {
  }
}
