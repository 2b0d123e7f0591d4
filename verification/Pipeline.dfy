/** From the syllabary to the syllable graph: what the spelling algebra and the prism give is what the syllabifier
    needs. */
module Pipelines {
  import opened Spellings
  import opened PrismImages
  import opened SyllableGraphs
  import opened PruningTheorems
  import opened Prisms
  import opened Prunings
  import Algebras

  lemma SyllableIdInjective(syllabary: set<string>, x: string, y: string)
    requires x in syllabary && y in syllabary && SyllableId(syllabary, x) == SyllableId(syllabary, y)
    ensures x == y
  {
  }

  /** The lists stand for syllables of the syllabary only. */
  ghost predicate OfSyllabary(lists: Algebras.Lists, syllabary: set<string>) {
    forall s, i :: s in lists && 0 <= i < |lists[s]| ==> lists[s][i].str in syllabary
  }

  ghost predicate FreeOf(lists: Algebras.Lists, delimiters: string) {
    forall s, c :: s in lists && c in s ==> c !in delimiters
  }

  ghost predicate SameSorts(a: seq<Algebras.Spelling>, b: seq<Algebras.Spelling>) {
    forall i, j :: 0 <= i < |a| && 0 <= j < |b| && a[i].str == b[j].str ==> a[i].sort == b[j].sort
  }

  /** Spellings that differ by delimiters at the end give each common syllable the same type and credibility. */
  ghost predicate NoClash(lists: Algebras.Lists, delimiters: string) {
    forall s, t :: s in lists && t in lists && Variant(s, t, delimiters) ==> SameSorts(lists[s], lists[t])
  }

  lemma FreeHasNoClash(lists: Algebras.Lists, delimiters: string)
    requires Algebras.Tidy(lists) && FreeOf(lists, delimiters)
    ensures NoClash(lists, delimiters)
  {
    forall s, t | s in lists && t in lists && Variant(s, t, delimiters)
      ensures SameSorts(lists[s], lists[t])
    {
      NoOtherVariant(s, t, delimiters);
      assert Algebras.Distinct(lists[s]);
    }
  }

  /** What a projection of a syllabary compiles to is regular if and only if its spellings do not clash. */
  lemma CompiledRegularExactly(syllabary: set<string>, rules: seq<Algebras.Rule>, lists: Algebras.Lists,
                               delimiters: string)
    requires Algebras.Exact(Algebras.Syllables(syllabary), rules, lists)
    ensures Regular(Compiled(syllabary, Some(lists)), delimiters) <==> NoClash(lists, delimiters)
  {
    ExactIsOfSyllabary(syllabary, rules, lists);
    Algebras.ExactIsTidy(Algebras.Syllables(syllabary), rules, lists);
    hide Algebras.Exact, Variant, Agree, SameSorts;
    var img := Compiled(syllabary, Some(lists));
    CompiledKeys(syllabary, lists);
    forall s, t | s in lists && t in lists
      ensures Agree(img, s, t) <==> SameSorts(lists[s], lists[t])
    {
      AgreeIsSameSorts(syllabary, lists, s, t);
    }
    hide Compiled;
  }

  lemma CompiledKeys(syllabary: set<string>, lists: Algebras.Lists)
    ensures forall s :: s in Compiled(syllabary, Some(lists)).keys <==> s in lists
  {
  }

  lemma AgreeIsSameSorts(syllabary: set<string>, lists: Algebras.Lists, s: string, t: string)
    requires Algebras.Tidy(lists) && OfSyllabary(lists, syllabary) && s in lists && t in lists
    requires s in Compiled(syllabary, Some(lists)).keys && t in Compiled(syllabary, Some(lists)).keys
    ensures Agree(Compiled(syllabary, Some(lists)), s, t) <==> SameSorts(lists[s], lists[t])
  {
    CompiledRefinesScript(syllabary, lists, s);
    CompiledRefinesScript(syllabary, lists, t);
    hide Compiled, Descriptors, SyllableId;
    DescriptorsAgree(syllabary, lists[s], lists[t]);
  }

  lemma DescriptorsAgree(syllabary: set<string>, a: seq<Algebras.Spelling>, b: seq<Algebras.Spelling>)
    requires forall i :: 0 <= i < |a| ==> a[i].str in syllabary
    requires forall j :: 0 <= j < |b| ==> b[j].str in syllabary
    ensures AgreeOn(Descriptors(syllabary, a), Descriptors(syllabary, b)) <==> SameSorts(a, b)
  {
    var ds, es := Descriptors(syllabary, a), Descriptors(syllabary, b);
    if SameSorts(a, b) {
      forall d, e | d in ds && e in es && d.syllable == e.syllable
        ensures d == e
      {
        var i :| 0 <= i < |a| && ds[i] == d;
        var j :| 0 <= j < |b| && es[j] == e;
        SyllableIdInjective(syllabary, a[i].str, b[j].str);
      }
    }
    if AgreeOn(ds, es) {
      forall i, j | 0 <= i < |a| && 0 <= j < |b| && a[i].str == b[j].str
        ensures a[i].sort == b[j].sort
      {
        assert ds[i] in ds && es[j] in es;
      }
    }
  }

  /** In particular it is regular if no spelling contains a delimiter, whatever the rules. */
  lemma CompiledIsRegular(syllabary: set<string>, rules: seq<Algebras.Rule>, lists: Algebras.Lists, delimiters: string)
    requires Algebras.Exact(Algebras.Syllables(syllabary), rules, lists) && FreeOf(lists, delimiters)
    ensures Regular(Compiled(syllabary, Some(lists)), delimiters)
  {
    Algebras.ExactIsTidy(Algebras.Syllables(syllabary), rules, lists);
    FreeHasNoClash(lists, delimiters);
    hide Algebras.Exact, FreeOf, NoClash, Regular, Compiled;
    CompiledRegularExactly(syllabary, rules, lists, delimiters);
  }

  lemma ExactIsOfSyllabary(syllabary: set<string>, rules: seq<Algebras.Rule>, lists: Algebras.Lists)
    requires Algebras.Exact(Algebras.Syllables(syllabary), rules, lists)
    ensures OfSyllabary(lists, syllabary)
  {
    forall s, i | s in lists && 0 <= i < |lists[s]|
      ensures lists[s][i].str in syllabary
    {
      Algebras.EntryAttained(Algebras.Syllables(syllabary), rules, lists, s, lists[s][i]);
      var c :| c in Algebras.Chains(Algebras.Syllables(syllabary), rules, s, lists[s][i].str);
      Algebras.OnlyOriginals(syllabary, rules, s, lists[s][i].str, c);
    }
  }

  // ---------- the script that is compiled ----------

  /** A script is compiled only if a rule has applied and something is left of it. */
  function Chosen(applied: bool, lists: Algebras.Lists): Option<Algebras.Lists> {
    if applied && lists != map[] then Some(lists) else None
  }

  /** The prisms have the same keys, with the same syllables. */
  ghost predicate SameAnswers(a: Image, b: Image) {
    a.keys == b.keys && forall v: nat :: v < |a.keys| ==> a.Syllables(v) == b.Syllables(v)
  }

  /** The prism that is compiled answers as the projected script says if and only if something is left of the script, or
      there was nothing to begin with. */
  lemma ChosenAnswersExactly(syllabary: set<string>, rules: seq<Algebras.Rule>, lists: Algebras.Lists, applied: bool)
    requires Algebras.Exact(Algebras.Syllables(syllabary), rules, lists)
    requires applied <==> exists i :: 0 <= i < |rules| && Algebras.Fires(Algebras.Syllables(syllabary), rules, i)
    ensures SameAnswers(Compiled(syllabary, Chosen(applied, lists)), Compiled(syllabary, Some(lists)))
       <==> (lists != map[] || syllabary == {})
  {
    hide Algebras.Exact, Algebras.Fires, Compiled, SameAnswers;
    if !applied {
      Algebras.UnfiredScript(syllabary, rules, lists);
      PlainAnswers(syllabary);
      assert syllabary != {} ==> exists x :: x in syllabary && x in lists;
    } else if lists != map[] {
      AnswersAlike(Compiled(syllabary, Some(lists)));
    } else {
      NothingLeft(syllabary);
    }
  }

  lemma AnswersAlike(img: Image)
    ensures SameAnswers(img, img)
  {
  }

  lemma NothingLeft(syllabary: set<string>)
    ensures SameAnswers(Compiled(syllabary, None), Compiled(syllabary, Some(map[]))) <==> syllabary == {}
  {
    var plain, empty := Compiled(syllabary, None).keys, Compiled(syllabary, Some(map[])).keys;
    assert forall s :: s in plain <==> s in syllabary;
    assert forall s :: s !in empty;
    EmptyExactly(empty);
    EmptyExactly(plain);
  }

  lemma EmptyExactly(keys: seq<string>)
    ensures keys == [] <==> forall s :: s !in keys
  {
    if keys != [] {
      assert keys[0] in keys;
    }
  }

  /** The script that has only the syllables answers as no script does. */
  lemma PlainAnswers(syllabary: set<string>)
    ensures SameAnswers(Compiled(syllabary, None), Compiled(syllabary, Some(Algebras.Syllables(syllabary))))
  {
    var lists := Algebras.Syllables(syllabary);
    assert lists.Keys == syllabary;
    var a, b := Compiled(syllabary, None), Compiled(syllabary, Some(lists));
    assert a.keys == b.keys;
    forall v: nat | v < |a.keys|
      ensures a.Syllables(v) == b.Syllables(v)
    {
      PlainSyllables(syllabary, v);
    }
  }

  lemma PlainSyllables(syllabary: set<string>, v: nat)
    requires v < |Compiled(syllabary, None).keys|
    ensures Compiled(syllabary, None).Syllables(v)
         == Compiled(syllabary, Some(Algebras.Syllables(syllabary))).Syllables(v)
  {
    var lists := Algebras.Syllables(syllabary);
    assert lists.Keys == syllabary;
    var s := Compiled(syllabary, None).keys[v];
    assert s in Compiled(syllabary, None).keys && s in syllabary;
    RankUnique(Compiled(syllabary, None).keys, v);
    CompiledWithoutScript(syllabary, s);
    CompiledRefinesScript(syllabary, lists, s);
  }

  /** Without a script every key has one syllable of its own. */
  lemma PlainIsRegular(syllabary: set<string>, delimiters: string)
    ensures Regular(Compiled(syllabary, None), delimiters)
  {
    var img := Compiled(syllabary, None);
    forall a, b | a in img.keys && b in img.keys && Variant(a, b, delimiters)
      ensures Agree(img, a, b)
    {
      CompiledWithoutScript(syllabary, a);
      CompiledWithoutScript(syllabary, b);
    }
  }

  /** What the compiler may pass on: no script, or a projection of the syllabary whose spellings do not clash. */
  ghost predicate Passed(syllabary: set<string>, rules: seq<Algebras.Rule>, script: Option<Algebras.Lists>,
                         delimiters: string) {
    script.Some? ==> Algebras.Exact(Algebras.Syllables(syllabary), rules, script.value)
                     && NoClash(script.value, delimiters)
  }

  /** Then pruning leaves exactly the vertices on the allowed paths, and between them exactly the allowed spellings. */
  lemma CompiledGraphIsUnion(syllabary: set<string>, rules: seq<Algebras.Rule>, script: Option<Algebras.Lists>,
                             input: string, delimiters: string, x: Found, p: nat, j: nat, s: int)
    requires Passed(syllabary, rules, script, delimiters)
    requires Explored(Query(input, delimiters, Compiled(syllabary, script)), x)
    ensures p in VerticesFrom(x, 0) <==> OnPath(x, p)
    ensures Has(EdgesFrom(x, 0), p, j, s)
      <==> (Has(x.edges, p, j, s) && x.farthest in x.vertices && x.edges[p][j][s].kind <= x.vertices[x.farthest]
            && OnPath(x, p) && OnPath(x, j))
  {
    hide Explored, Compiled, NoClash, Regular, Algebras.Exact;
    var q := Query(input, delimiters, Compiled(syllabary, script));
    match script {
      case Some(lists) => CompiledRegularExactly(syllabary, rules, lists, delimiters);
      case None => PlainIsRegular(syllabary, delimiters);
    }
    VerticesAreUnion(q, x, p);
    EdgesAreUnion(q, x, p, j, s);
  }
}
