/** The prism: compiles a script to ranked keys and a spelling map, and answers questions about spellings. */
module Prisms {
  import opened Spellings
  import opened Orderings
  import opened PrismImages
  import opened ExpandSearches
  import Algebras

  /** The letters from a to z. */
  const DEFAULT_ALPHABET: string := seq(26, i requires 0 <= i < 26 => ('a' as int + i) as char)

  lemma DefaultAlphabet(c: char)
    ensures AscendingChars(DEFAULT_ALPHABET) && (c in DEFAULT_ALPHABET <==> 'a' <= c <= 'z')
  {
    if 'a' <= c <= 'z' {
      assert DEFAULT_ALPHABET[c as int - 'a' as int] == c;
    }
  }

  // ---------- what is compiled ----------

  /** The number of a syllable: its place in the ordered syllabary; what is no syllable gets number 0. */
  ghost function SyllableId(syllabary: set<string>, str: string): int {
    if str in syllabary then RankIn(SortedKeys(syllabary), str) else 0
  }

  ghost function DescriptorOf(syllabary: set<string>, s: Algebras.Spelling): Descriptor {
    Descriptor(SyllableId(syllabary, s.str), s.sort.kind, s.sort.credibility)
  }

  ghost function Descriptors(syllabary: set<string>, list: seq<Algebras.Spelling>): seq<Descriptor> {
    seq(|list|, i requires 0 <= i < |list| => DescriptorOf(syllabary, list[i]))
  }

  ghost function SpellingMapOf(syllabary: set<string>, script: Algebras.Lists): seq<seq<Descriptor>> {
    var keys := SortedKeys(script.Keys);
    seq(|keys|, i requires 0 <= i < |keys| => Descriptors(syllabary, Algebras.Lookup(script, keys[i])))
  }

  /** The compiled form of a syllabary, with a script or without one. */
  ghost function Compiled(syllabary: set<string>, script: Option<Algebras.Lists>): Image {
    match script
    case Some(lists) => Image(SortedKeys(lists.Keys), Some(SpellingMapOf(syllabary, lists)))
    case None => Image(SortedKeys(syllabary), None)
  }

  lemma {:induction false} RankUnique(keys: seq<string>, i: nat)
    requires Ascending(keys) && i < |keys|
    ensures RankIn(keys, keys[i]) == i
  {
    AscendingDistinct(keys, RankIn(keys, keys[i]), i);
  }

  /** Looking up a spelling of the script and draining its accessor yields its syllables, with their numbers, types
      and credibilities, in order. */
  lemma CompiledRefinesScript(syllabary: set<string>, lists: Algebras.Lists, s: string)
    requires s in lists && lists[s] != []
    ensures var img := Compiled(syllabary, Some(lists));
            img.Rank(s) >= 0 && img.Syllables(img.Rank(s)) == Descriptors(syllabary, lists[s])
  {
  }

  /** That is, one by one: the type and the credibility that the script has, and the number that is the place of the
      syllable in the syllabary. */
  lemma CompiledKeepsEntries(syllabary: set<string>, lists: Algebras.Lists, s: string, i: nat)
    requires s in lists && i < |lists[s]|
    ensures Compiled(syllabary, Some(lists)).Rank(s) >= 0
    ensures var img := Compiled(syllabary, Some(lists));
            var ds := img.Syllables(img.Rank(s));
            && |ds| == |lists[s]|
            && ds[i].kind == lists[s][i].sort.kind && ds[i].credibility == lists[s][i].sort.credibility
            && (lists[s][i].str in syllabary ==>
                  0 <= ds[i].syllable < |SortedKeys(syllabary)|
                  && SortedKeys(syllabary)[ds[i].syllable] == lists[s][i].str)
  {
    CompiledRefinesScript(syllabary, lists, s);
  }

  /** What is no spelling of the script is not found. */
  lemma OnlyScriptSpellings(syllabary: set<string>, lists: Algebras.Lists, s: string)
    ensures Compiled(syllabary, Some(lists)).Rank(s) == -1 <==> s !in lists
  {
  }

  /** Without a script, a syllable has just its own number: the one that the table knows it by. */
  lemma CompiledWithoutScript(syllabary: set<string>, s: string)
    requires s in syllabary
    ensures var img := Compiled(syllabary, None);
            img.Rank(s) == SyllableId(syllabary, s)
            && img.Syllables(img.Rank(s)) == [Descriptor(SyllableId(syllabary, s), NORMAL, 1.0)]
  {
  }

  /** The map gives each syllable its number. */
  ghost predicate Numbers(syllabary: set<string>, syllableToId: map<string, int>) {
    forall s :: (s in syllableToId <==> s in syllabary)
      && (s in syllabary ==> syllableToId[s] == SyllableId(syllabary, s))
  }

  method NumberSyllables(syllabary: set<string>) returns (syllableToId: map<string, int>)
    ensures Numbers(syllabary, syllableToId)
  {
    var ordered := InOrder(syllabary);
    syllableToId := map[];
    for n := 0 to |ordered|
      invariant forall s :: s in syllableToId <==> s in ordered[..n]
      invariant forall s :: s in syllableToId ==> syllableToId[s] == SyllableId(syllabary, s)
    {
      RankUnique(ordered, n);
      syllableToId := syllableToId[ordered[n] := n];
    }
    assert ordered[..|ordered|] == ordered;
  }

  method BuildSpellingMap(syllabary: set<string>, lists: Algebras.Lists) returns (items: seq<seq<Descriptor>>)
    ensures items == SpellingMapOf(syllabary, lists)
  {
    hide SyllableId;
    var syllableToId := NumberSyllables(syllabary);
    var keys := InOrder(lists.Keys);
    items := [];
    for i := 0 to |keys|
      invariant items == SpellingMapOf(syllabary, lists)[..i]
    {
      var list := lists[keys[i]];
      var item := DescribeList(syllabary, syllableToId, list);
      items := items + [item];
    }
  }

  method DescribeList(ghost syllabary: set<string>, syllableToId: map<string, int>, list: seq<Algebras.Spelling>)
    returns (item: seq<Descriptor>)
    requires Numbers(syllabary, syllableToId)
    ensures item == Descriptors(syllabary, list)
  {
    item := [];
    for j := 0 to |list|
      invariant item == Descriptors(syllabary, list)[..j]
    {
      var s := list[j];
      var id := if s.str in syllableToId then syllableToId[s.str] else 0;
      item := item + [Descriptor(id, s.sort.kind, s.sort.credibility)];
    }
  }

  // ---------- the alphabet ----------

  ghost predicate AlphabetOf(keys: seq<string>, alphabet: string) {
    AscendingChars(alphabet) && forall c :: c in alphabet <==> InSomeKey(keys, c)
  }

  ghost predicate InSomeKey(keys: seq<string>, c: char) {
    exists i :: 0 <= i < |keys| && c in keys[i]
  }

  method CollectChars(keys: seq<string>) returns (alphabet: set<char>)
    ensures forall c :: c in alphabet <==> InSomeKey(keys, c)
  {
    alphabet := {};
    for i := 0 to |keys|
      invariant forall c :: c in alphabet <==> exists k :: 0 <= k < i && c in keys[k]
    {
      for p := 0 to |keys[i]|
        invariant forall c :: c in alphabet <==> (exists k :: 0 <= k < i && c in keys[k]) || c in keys[i][..p]
      {
        alphabet := alphabet + {keys[i][p]};
      }
      assert keys[i][..|keys[i]|] == keys[i];
    }
  }

  function InsertChar(c: char, s: string): string {
    if s == "" || c < s[0] then [c] + s else [s[0]] + InsertChar(c, s[1..])
  }

  lemma {:induction false} InsertCharAscends(c: char, s: string)
    requires AscendingChars(s) && c !in s
    ensures AscendingChars(InsertChar(c, s)) && forall d :: d in InsertChar(c, s) <==> d == c || d in s
  {
    if s != "" && !(c < s[0]) {
      var rest := InsertChar(c, s[1..]);
      InsertCharAscends(c, s[1..]);
      assert s == [s[0]] + s[1..];
      forall i | 0 <= i < |rest|
        ensures s[0] < rest[i]
      {
        assert rest[i] in rest && s[0] != c;
        assert rest[i] != c ==> rest[i] in s[1..];
      }
    }
  }

  /** Copies the characters in ascending order. */
  method CopyAscending(alphabet: set<char>) returns (p: string)
    ensures AscendingChars(p) && forall c :: c in p <==> c in alphabet
  {
    p := "";
    var todo := alphabet;
    while todo != {}
      invariant todo <= alphabet && AscendingChars(p) && forall c :: c in p <==> c in alphabet && c !in todo
      decreases todo
    {
      var c := Pick(todo);
      InsertCharAscends(c, p);
      p := InsertChar(c, p);
      todo := todo - {c};
    }
  }

  // ---------- the accessor ----------

  /** Goes through the syllables of one spelling. */
  class SpellingAccessor {
    const items: Option<seq<Descriptor>>
    var spellingId: int
    var iter: nat

    constructor (spellingMap: Option<seq<seq<Descriptor>>>, id: nat)
      ensures Rest() == Image([], spellingMap).Syllables(id) && !Exhausted()
    {
      items := if spellingMap.Some? && id < |spellingMap.value| then Some(spellingMap.value[id]) else None;
      spellingId, iter := id, 0;
    }

    predicate Exhausted()
      reads this
    {
      spellingId == -1
    }

    predicate AtItem()
      reads this
    {
      items.Some? && iter < |items.value|
    }

    /** The syllables that are still to come. */
    ghost function Rest(): seq<Descriptor>
      reads this
    {
      if Exhausted() then [] else if AtItem() then items.value[iter..] else [Descriptor(spellingId, NORMAL, 1.0)]
    }

    function Current(): Descriptor
      reads this
    {
      if AtItem() then items.value[iter] else Descriptor(spellingId, NORMAL, 1.0)
    }

    lemma RestStartsHere()
      ensures if Exhausted() then Rest() == [] else Rest() != [] && Rest() == [Current()] + Rest()[1..]
    {
    }

    method Next() returns (exhausted: bool)
      modifies this
      ensures Rest() == if old(Exhausted()) then [] else old(Rest())[1..]
      ensures exhausted <==> !old(Exhausted()) && Exhausted()
    {
      if Exhausted() {
        return false;
      }
      if items.None? {
        spellingId := -1;
      } else {
        iter := iter + 1;
        if iter >= |items.value| {
          spellingId := -1;
        }
      }
      return Exhausted();
    }
  }

  /** Draining an accessor gives the syllables of the spelling. */
  method Drain(accessor: SpellingAccessor) returns (ds: seq<Descriptor>)
    modifies accessor
    ensures ds == old(accessor.Rest()) && accessor.Exhausted()
  {
    hide SpellingAccessor.Rest, SpellingAccessor.Current;
    ds := [];
    while !accessor.Exhausted()
      invariant ds + accessor.Rest() == old(accessor.Rest())
      decreases |accessor.Rest()|
    {
      accessor.RestStartsHere();
      ds := ds + [accessor.Current()];
      var _ := accessor.Next();
    }
    accessor.RestStartsHere();
  }

  // ---------- the prism ----------

  /** What is kept in the prism file. */
  datatype File = File(format: real, alphabet: string, spellingMap: Option<seq<seq<Descriptor>>>)

  class Prism {
    /** The double-array trie, as its sorted keys. */
    var keys: seq<string>
    var file: File
    var format: real
    var spellingMap: Option<seq<seq<Descriptor>>>

    constructor ()
      ensures format == 0.0 && spellingMap == None
    {
      keys, file, format, spellingMap := [], File(0.0, "", None), 0.0, None;
    }

    function Now(): Image
      reads this
    {
      Image(keys, spellingMap)
    }

    /** The file has been built from the syllabary and the script. */
    ghost predicate Built(syllabary: set<string>, script: Option<Algebras.Lists>)
      reads this
    {
      && keys == Compiled(syllabary, script).keys && file.spellingMap == Compiled(syllabary, script).spellings
      && file.format == 1.0 && AlphabetOf(keys, file.alphabet)
    }

    /** Compiles the script, or the bare syllabary. Without a script, the spelling map that is in use stays, so that the
        answers are those of the bare syllabary just when there was no such map. */
    method Build(syllabary: set<string>, script: Option<Algebras.Lists>)
      modifies this
      ensures Built(syllabary, script) && format == old(format)
      ensures spellingMap == if script.Some? then Compiled(syllabary, script).spellings else old(spellingMap)
      ensures Now() == Compiled(syllabary, script) <==> script.Some? || old(spellingMap) == None
    {
      hide Compiled;
      var ks := InOrder(if script.Some? then script.value.Keys else syllabary);
      var chars := CollectChars(ks);
      var alphabet := CopyAscending(chars);
      var built := None;
      if script.Some? {
        var items := BuildSpellingMap(syllabary, script.value);
        built := Some(items);
        spellingMap := built;
      }
      keys, file := ks, File(1.0, alphabet, built);
      CompiledIs(syllabary, script);
    }

    lemma CompiledIs(syllabary: set<string>, script: Option<Algebras.Lists>)
      ensures Compiled(syllabary, script).keys == SortedKeys(if script.Some? then script.value.Keys else syllabary)
      ensures Compiled(syllabary, script).spellings
           == if script.Some? then Some(SpellingMapOf(syllabary, script.value)) else None
    {
    }

    /** What has been built comes into use. */
    method Load(ghost syllabary: set<string>, ghost script: Option<Algebras.Lists>)
      requires Built(syllabary, script)
      modifies this
      ensures Built(syllabary, script) && Now() == Compiled(syllabary, script) && format == 1.0
    {
      format := file.format;
      spellingMap := None;
      if format >= 0.99 {
        spellingMap := file.spellingMap;
      }
    }

    method GetValue(key: string) returns (found: bool, value: int)
      ensures found <==> key in keys
      ensures found ==> value == Now().Rank(key) && 0 <= value < |keys| && keys[value] == key
    {
      value := RankIn(keys, key);
      found := value != -1;
    }

    /** All keys that are prefixes of `key`; for an empty key the results are left as they were. */
    method CommonPrefixSearch(key: string, before: seq<Match>) returns (result: seq<Match>)
      ensures result == if key == "" then before else Now().Matches(key)
      ensures key != "" ==> forall m :: m in result <==> Now().MatchOf(key, m)
      ensures key != "" ==> forall i, j :: 0 <= i < j < |result| ==> result[i].length < result[j].length
    {
      hide RankIn, Image.MatchOf;
      if key == "" {
        return before;
      }
      result := [];
      for n := 0 to |key| + 1
        invariant result == if n == 0 then [] else Now().MatchesUpTo(key, n - 1)
      {
        var value := RankIn(keys, key[..n]);
        if value != -1 {
          result := result + [Match(value, n)];
        }
      }
      MatchesExactly(Now(), key);
    }

    /** The characters that a search goes on with: those of the keys, once the prism has been loaded. */
    function Alphabet(): string
      reads this
    {
      if format > 0.99 then file.alphabet else DEFAULT_ALPHABET
    }

    method Expand(key: string, limit: nat) returns (result: seq<Match>)
      requires AscendingChars(file.alphabet)
      ensures Answers(Quest(Now(), Alphabet(), key), limit, result)
    {
      hide Answers;
      DefaultAlphabet('a');
      var q := Quest(Now(), Alphabet(), key);
      result := ExpandSearch(q, limit);
    }

    method QuerySpelling(id: nat) returns (accessor: SpellingAccessor)
      ensures fresh(accessor) && accessor.Rest() == Now().Syllables(id)
    {
      accessor := new SpellingAccessor(spellingMap, id);
    }
  }

  /** In a loaded prism, an unlimited search answers with all keys that go on from the prefix. */
  lemma LoadedSearchIsComplete(syllabary: set<string>, script: Option<Algebras.Lists>, alphabet: string, key: string,
                               k: string)
    requires AlphabetOf(Compiled(syllabary, script).keys, alphabet)
    ensures Quest(Compiled(syllabary, script), alphabet, key).Wanted(k)
      <==> k in Compiled(syllabary, script).keys && key <= k
  {
  }

  /** Before it is loaded, a search misses the keys that go on with anything but small letters. */
  lemma UnloadedSearchMisses(img: Image, key: string, k: string)
    requires k in img.keys && key <= k
    ensures Quest(img, DEFAULT_ALPHABET, key).Wanted(k) <==> forall i :: |key| <= i < |k| ==> 'a' <= k[i] <= 'z'
  {
    forall i | |key| <= i < |k|
      ensures k[i] in DEFAULT_ALPHABET <==> 'a' <= k[i] <= 'z'
    {
      DefaultAlphabet(k[i]);
    }
  }

}
