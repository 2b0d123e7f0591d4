/** Key events and key sequences: how they are written down, and read back. */
module KeyEvents {
  import opened Spellings

  // ---------- modifiers ----------

  /** A set of modifiers, as the bits that are set. */
  type Modifiers = set<nat>

  const BITS := 32

  /** The bits that a repr looks at. */
  predicate InMask(bit: nat) { bit <= 12 || 24 <= bit <= 28 || bit == 30 }

  function ModifierName(bit: nat): Option<string> {
    match bit
    case 0 => Some("Shift")
    case 1 => Some("Lock")
    case 2 => Some("Control")
    case 3 => Some("Alt")
    case 4 => Some("Mod2")
    case 5 => Some("Mod3")
    case 6 => Some("Mod4")
    case 7 => Some("Mod5")
    case 8 => Some("Button1")
    case 9 => Some("Button2")
    case 10 => Some("Button3")
    case 11 => Some("Button4")
    case 12 => Some("Button5")
    case 26 => Some("Super")
    case 27 => Some("Hyper")
    case 28 => Some("Meta")
    case 30 => Some("Release")
    case _ => None
  }

  /** The modifier with a name, or no modifier. */
  function ModifierByName(name: string, from: nat): Modifiers
    decreases BITS - from
  {
    if from >= BITS then {} else if ModifierName(from) == Some(name) then {from} else ModifierByName(name, from + 1)
  }

  predicate Plain(name: string) {
    name != "" && '+' !in name && '}' !in name
  }

  lemma NamesArePlain(i: nat)
    ensures ModifierName(i).Some? ==> Plain(ModifierName(i).value) && InMask(i) && i < BITS
  {
  }

  lemma NamesDiffer(i: nat, j: nat)
    requires ModifierName(i).Some? && ModifierName(j).Some? && i < j
    ensures ModifierName(i) != ModifierName(j)
  {
  }

  lemma {:induction false} NameFindsBit(i: nat, from: nat)
    requires ModifierName(i).Some? && from <= i < BITS
    ensures ModifierByName(ModifierName(i).value, from) == {i}
    decreases i - from
  {
    hide ModifierName;
    if from < i {
      if ModifierName(from).Some? {
        NamesDiffer(from, i);
      }
      NameFindsBit(i, from + 1);
    }
  }

  /** The modifiers that have names: the others are not written down. */
  function Named(ms: Modifiers): Modifiers {
    set bit | bit in ms && ModifierName(bit).Some?
  }

  // ---------- the table of keys ----------

  const VOID_SYMBOL := 0xffffff

  datatype KeyTable = KeyTable(nameOf: int -> Option<string>, keycodeOf: string -> int, hexOf: int -> string) {

    /** Names look up to their own keys, are not taken for anything else, and denote themselves if they are single
        characters. */
    ghost predicate Consistent() {
      forall key :: nameOf(key).Some? && key != VOID_SYMBOL ==> GoodName(key, nameOf(key).value)
    }

    predicate GoodName(key: int, name: string) {
      Plain(name) && keycodeOf(name) == key && (|name| == 1 ==> name[0] as int == key && name[0] != '{')
    }

    /** Keys that can be written down and read back. */
    predicate HasName(key: int) {
      key != VOID_SYMBOL && nameOf(key).Some?
    }
  }

  // ---------- writing down ----------

  datatype Event = Event(keycode: int, modifiers: Modifiers)

  /** The names of the modifiers from bit `i` on, each with a plus sign. */
  function Prefix(ms: Modifiers, i: nat): string
    decreases BITS - i
  {
    if i >= BITS then ""
    else (if i in ms && ModifierName(i).Some? then ModifierName(i).value + "+" else "") + Prefix(ms, i + 1)
  }

  function Repr(t: KeyTable, e: Event): string {
    if t.nameOf(e.keycode).Some? then Prefix(e.modifiers, 0) + t.nameOf(e.keycode).value
    else if e.keycode <= 0xffffff then Prefix(e.modifiers, 0) + t.hexOf(e.keycode)
    else "(unknown)"
  }

  function Braced(k: string): string {
    if |k| == 1 then k else "{" + k + "}"
  }

  function SequenceRepr(t: KeyTable, es: seq<Event>): string {
    if es == [] then "" else Braced(Repr(t, es[0])) + SequenceRepr(t, es[1..])
  }

  // ---------- reading back ----------

  /** The first place of a character, or -1. */
  function Find(s: string, c: char): (i: int)
    ensures -1 <= i < |s| && (i >= 0 ==> s[i] == c)
  {
    if s == "" then -1 else if s[0] == c then 0 else
      var i := Find(s[1..], c);
      if i < 0 then -1 else i + 1
  }

  /** The modifiers that have been read so far are `ms`. */
  function ParseRest(t: KeyTable, s: string, ms: Modifiers): (bool, Event) {
    var found := Find(s, '+');
    if found < 0 then (t.keycodeOf(s) != VOID_SYMBOL, Event(t.keycodeOf(s), ms))
    else
      var mask := ModifierByName(s[..found], 0);
      if mask == {} then (false, Event(0, ms)) else ParseRest(t, s[found + 1..], ms + mask)
  }

  function Parse(t: KeyTable, s: string): (bool, Event) {
    if s == "" then (false, Event(0, {}))
    else if |s| == 1 then (true, Event(s[0] as int, {}))
    else ParseRest(t, s, {})
  }

  /** What has been read from the front of a sequence, if that was possible, and how long it is. */
  datatype Taken = Taken(good: bool, event: Event, length: nat)

  predicate IsBraced(s: string) {
    |s| > 1 && s[0] == '{'
  }

  function TakeOne(t: KeyTable, s: string): (x: Taken)
    requires s != ""
    ensures x.good ==> 0 < x.length <= |s|
  {
    if IsBraced(s) then
      var close := Find(s[1..], '}');
      if close < 0 then Taken(false, Event(0, {}), 0)
      else
        var (good, e) := Parse(t, s[1..close + 1]);
        Taken(good, e, close + 2)
    else
      var (good, e) := Parse(t, s[..1]);
      Taken(good, e, 1)
  }

  /** The events that are read before something is not recognized, and whether that happens. */
  function ParseSequence(t: KeyTable, s: string): (bool, seq<Event>)
    decreases |s|
  {
    if s == "" then (true, [])
    else
      var x := TakeOne(t, s);
      if !x.good then (false, [])
      else
        var (rest, es) := ParseSequence(t, s[x.length..]);
        (rest, [x.event] + es)
  }

  // ---------- reading back undoes writing down ----------

  lemma {:induction false} FindAppend(a: string, c: char, b: string)
    requires c !in a
    ensures Find(a + [c] + b, c) == |a|
  {
    if a != "" {
      assert (a + [c] + b)[1..] == a[1..] + [c] + b;
      FindAppend(a[1..], c, b);
    }
  }

  lemma {:induction false} FindNothing(a: string, c: char)
    requires c !in a
    ensures Find(a, c) == -1
  {
    if a != "" { FindNothing(a[1..], c); }
  }

  function NamedFrom(ms: Modifiers, i: nat): Modifiers {
    set bit | bit in ms && bit >= i && ModifierName(bit).Some?
  }

  /** The modifiers are read back one by one, and then the key. */
  lemma {:induction false} ParsePrefix(t: KeyTable, ms: Modifiers, i: nat, name: string, seen: Modifiers)
    requires '+' !in name
    ensures ParseRest(t, Prefix(ms, i) + name, seen)
         == (t.keycodeOf(name) != VOID_SYMBOL, Event(t.keycodeOf(name), seen + NamedFrom(ms, i)))
    decreases BITS - i
  {
    hide ModifierName, ParseRest, Prefix, NamedFrom;
    if i >= BITS {
      ParseKeyOnly(t, name, seen);
      NothingNamed(ms, i);
      assert Prefix(ms, i) + name == name && seen + NamedFrom(ms, i) == seen;
    } else {
      PrefixNext(ms, i, name);
      NamedFromNext(ms, i);
      if i in ms && ModifierName(i).Some? {
        ParsePrefix(t, ms, i + 1, name, seen + {i});
        ParseOne(t, ModifierName(i).value, i, Prefix(ms, i + 1) + name, seen);
        assert seen + {i} + NamedFrom(ms, i + 1) == seen + NamedFrom(ms, i);
      } else {
        ParsePrefix(t, ms, i + 1, name, seen);
        assert NamedFrom(ms, i) == NamedFrom(ms, i + 1);
      }
    }
  }

  lemma ParseKeyOnly(t: KeyTable, name: string, seen: Modifiers)
    requires '+' !in name
    ensures ParseRest(t, name, seen) == (t.keycodeOf(name) != VOID_SYMBOL, Event(t.keycodeOf(name), seen))
  {
    FindNothing(name, '+');
  }

  lemma PrefixNext(ms: Modifiers, i: nat, name: string)
    requires i < BITS
    ensures var rest := Prefix(ms, i + 1) + name;
            Prefix(ms, i) + name
              == if i in ms && ModifierName(i).Some? then ModifierName(i).value + "+" + rest else rest
  {
    hide ModifierName;
    if i in ms && ModifierName(i).Some? {
      var first := ModifierName(i).value + "+";
      assert Prefix(ms, i) + name == first + (Prefix(ms, i + 1) + name);
    } else {
      assert Prefix(ms, i) == Prefix(ms, i + 1);
    }
  }

  lemma NothingNamed(ms: Modifiers, i: nat)
    requires i >= BITS
    ensures NamedFrom(ms, i) == {} && Prefix(ms, i) == ""
  {
  }

  lemma NamedFromNext(ms: Modifiers, i: nat)
    ensures NamedFrom(ms, i) == (if i in ms && ModifierName(i).Some? then {i} else {}) + NamedFrom(ms, i + 1)
  {
    hide ModifierName;
  }

  function Below(ms: Modifiers, bit: nat): Modifiers {
    set b | b in ms && b < bit
  }

  function Above(ms: Modifiers, bit: nat): Modifiers {
    set b | b in ms && b > bit
  }

  /** The names of the modifiers are written from the lowest to the highest, each with a plus sign. */
  lemma PrefixExactly(ms: Modifiers, bit: nat)
    requires bit in ms && ModifierName(bit).Some?
    ensures Prefix({}, 0) == ""
    ensures Prefix(ms, 0)
         == Prefix(Below(ms, bit), 0) + ModifierName(bit).value + "+" + Prefix(Above(ms, bit), 0)
  {
    NamesArePlain(bit);
    NoModifiers(0);
    PrefixSplits(ms, bit, 0);
  }

  lemma {:induction false} NoModifiers(i: nat)
    ensures Prefix({}, i) == ""
    decreases BITS - i
  {
    if i < BITS { NoModifiers(i + 1); }
  }

  lemma {:induction false} PrefixSplits(ms: Modifiers, bit: nat, i: nat)
    requires bit in ms && ModifierName(bit).Some? && i <= bit < BITS
    ensures Prefix(ms, i) == Prefix(Below(ms, bit), i) + ModifierName(bit).value + "+" + Prefix(Above(ms, bit), i)
    decreases bit - i
  {
    hide ModifierName, Prefix;
    var below, above := Below(ms, bit), Above(ms, bit);
    PrefixUnfold(ms, i);
    PrefixUnfold(above, i);
    if i < bit {
      PrefixUnfold(below, i);
      PrefixSplits(ms, bit, i + 1);
    } else {
      PrefixAbove(ms, above, i + 1);
      PrefixBelow(below, i);
    }
  }

  lemma PrefixUnfold(ms: Modifiers, i: nat)
    requires i < BITS
    ensures Prefix(ms, i)
         == (if i in ms && ModifierName(i).Some? then ModifierName(i).value + "+" else "") + Prefix(ms, i + 1)
  {
  }

  lemma {:induction false} PrefixAbove(a: Modifiers, b: Modifiers, i: nat)
    requires forall bit :: bit >= i ==> (bit in a <==> bit in b)
    ensures Prefix(a, i) == Prefix(b, i)
    decreases BITS - i
  {
    if i < BITS { PrefixAbove(a, b, i + 1); }
  }

  lemma {:induction false} PrefixBelow(ms: Modifiers, i: nat)
    requires forall bit :: bit in ms ==> bit < i
    ensures Prefix(ms, i) == ""
    decreases BITS - i
  {
    if i < BITS { PrefixBelow(ms, i + 1); }
  }

  /** What is written for a key: its modifiers, then its name, or its code in hexadecimal if it has none; and neither if
      the code is too great. */
  lemma ReprExactly(t: KeyTable, key: int, ms: Modifiers)
    ensures t.nameOf(key).Some? ==> Repr(t, Event(key, ms)) == Prefix(ms, 0) + t.nameOf(key).value
    ensures t.nameOf(key).None? && key < 0x100_0000 ==> Repr(t, Event(key, ms)) == Prefix(ms, 0) + t.hexOf(key)
    ensures t.nameOf(key).None? && key >= 0x100_0000 ==> Repr(t, Event(key, ms)) == "(unknown)"
  {
  }

  /** In a sequence it stands in braces, unless it is a single character. */
  lemma SequenceExactly(t: KeyTable, e: Event, es: seq<Event>)
    ensures SequenceRepr(t, []) == ""
    ensures |Repr(t, e)| == 1 ==> SequenceRepr(t, [e] + es) == Repr(t, e) + SequenceRepr(t, es)
    ensures |Repr(t, e)| != 1 ==> SequenceRepr(t, [e] + es) == "{" + Repr(t, e) + "}" + SequenceRepr(t, es)
  {
    assert ([e] + es)[1..] == es;
  }

  /** A word before a plus sign that is not the name of a modifier makes reading fail. */
  lemma ParseUnknown(t: KeyTable, word: string, rest: string, seen: Modifiers)
    requires '+' !in word && forall bit :: ModifierName(bit) != Some(word)
    ensures !ParseRest(t, word + "+" + rest, seen).0
  {
    var s := word + "+" + rest;
    FindAppend(word, '+', rest);
    assert s[..|word|] == word;
    NoSuchModifier(word, 0);
    ParseRestNext(t, s, seen);
  }

  lemma {:induction false} NoSuchModifier(word: string, from: nat)
    requires forall bit :: ModifierName(bit) != Some(word)
    ensures ModifierByName(word, from) == {}
    decreases BITS - from
  {
    hide ModifierName;
    if from < BITS { NoSuchModifier(word, from + 1); }
  }

  lemma ParseOne(t: KeyTable, modifier: string, i: nat, rest: string, seen: Modifiers)
    requires ModifierName(i) == Some(modifier)
    ensures ParseRest(t, modifier + "+" + rest, seen) == ParseRest(t, rest, seen + {i})
  {
    NamesArePlain(i);
    NameFindsBit(i, 0);
    hide ModifierName, ModifierByName;
    FindAppend(modifier, '+', rest);
    var s := modifier + "+" + rest;
    assert s[..|modifier|] == modifier && s[|modifier| + 1..] == rest;
  }

  lemma {:induction false} PrefixShape(ms: Modifiers, i: nat)
    ensures '}' !in Prefix(ms, i)
    ensures Prefix(ms, i) == "" <==> NamedFrom(ms, i) == {}
    decreases BITS - i
  {
    if i >= BITS {
      NothingNamed(ms, i);
    } else {
      PrefixShape(ms, i + 1);
      NamedFromNext(ms, i);
      NamesArePlain(i);
      hide ModifierName, NamedFrom;
      assert Prefix(ms, i) == "" <==> !(i in ms && ModifierName(i).Some?) && Prefix(ms, i + 1) == "";
    }
  }

  /** Reading back what has been written down gives the key, with the modifiers that have names. */
  lemma ParseUndoesRepr(t: KeyTable, e: Event)
    requires t.Consistent() && t.HasName(e.keycode)
    ensures Parse(t, Repr(t, e)) == (true, Event(e.keycode, Named(e.modifiers)))
    ensures Repr(t, e) != "" && '}' !in Repr(t, e) && Repr(t, e) != "{"
  {
    hide Prefix, ParseRest, ModifierName;
    var name := t.nameOf(e.keycode).value;
    assert t.GoodName(e.keycode, name);
    ParsePrefix(t, e.modifiers, 0, name, {});
    PrefixShape(e.modifiers, 0);
    assert Named(e.modifiers) == NamedFrom(e.modifiers, 0) == {} + NamedFrom(e.modifiers, 0);
    assert Prefix(e.modifiers, 0) == "" ==> Repr(t, e) == name;
    assert |Repr(t, e)| == 1 ==> Prefix(e.modifiers, 0) == "";
  }

  /** So the event comes back unchanged exactly if all its modifiers have names. */
  lemma RoundTripExactly(t: KeyTable, e: Event)
    requires t.Consistent() && t.HasName(e.keycode)
    ensures Parse(t, Repr(t, e)) == (true, e) <==> forall bit :: bit in e.modifiers ==> ModifierName(bit).Some?
  {
    hide ModifierName;
    ParseUndoesRepr(t, e);
    assert Named(e.modifiers) == e.modifiers <==> forall bit :: bit in e.modifiers ==> ModifierName(bit).Some?;
  }

  ghost predicate Writable(t: KeyTable, es: seq<Event>) {
    forall i :: 0 <= i < |es| ==> t.HasName(es[i].keycode)
  }

  function NamedOnly(es: seq<Event>): seq<Event> {
    if es == [] then [] else [Event(es[0].keycode, Named(es[0].modifiers))] + NamedOnly(es[1..])
  }

  /** One event is read from the front of a sequence. */
  lemma ParseFront(t: KeyTable, k: string, e: Event, rest: string)
    requires k != "" && '}' !in k && k != "{" && Parse(t, k) == (true, e)
    ensures ParseSequence(t, Braced(k) + rest) == (ParseSequence(t, rest).0, [e] + ParseSequence(t, rest).1)
  {
    var s := Braced(k) + rest;
    TakeFront(t, k, e, rest);
    hide TakeOne;
    assert s[|Braced(k)|..] == rest;
  }

  lemma TakeFront(t: KeyTable, k: string, e: Event, rest: string)
    requires k != "" && '}' !in k && k != "{" && Parse(t, k) == (true, e)
    ensures TakeOne(t, Braced(k) + rest) == Taken(true, e, |Braced(k)|)
  {
    hide Parse;
    var s := Braced(k) + rest;
    if |k| == 1 {
      assert s[..1] == k;
    } else {
      assert s[1..] == k + ['}'] + rest;
      FindAppend(k, '}', rest);
      assert s[1..|k| + 1] == k;
    }
  }

  /** Reading back a sequence gives its keys, with the modifiers that have names. */
  lemma {:induction false} SequenceRoundTrip(t: KeyTable, es: seq<Event>)
    requires t.Consistent() && Writable(t, es)
    ensures ParseSequence(t, SequenceRepr(t, es)) == (true, NamedOnly(es))
  {
    if es != [] {
      hide ParseSequence, Parse, Repr, Braced, KeyTable.Consistent;
      assert t.HasName(es[0].keycode);
      ParseUndoesRepr(t, es[0]);
      SequenceRoundTrip(t, es[1..]);
      ParseFront(t, Repr(t, es[0]), Event(es[0].keycode, Named(es[0].modifiers)), SequenceRepr(t, es[1..]));
    } else {
      NothingToParse(t);
    }
  }

  /** A single character stands for itself, and is read before the rest; an opening brace only at the end. */
  lemma ParseCharacter(t: KeyTable, c: char, rest: string)
    requires c != '{' || rest == ""
    ensures Parse(t, "") == (false, Event(0, {})) && Parse(t, [c]) == (true, Event(c as int, {}))
    ensures ParseSequence(t, [c] + rest)
         == (ParseSequence(t, rest).0, [Event(c as int, {})] + ParseSequence(t, rest).1)
  {
    var s := [c] + rest;
    assert s[1..] == rest && s[..1] == [c];
    ParseSequenceNext(t, s);
  }

  /** A brace that is not closed, and one around what cannot be read, make reading fail. */
  lemma ParseFails(t: KeyTable, k: string, rest: string)
    requires '}' !in k
    ensures k != "" ==> ParseSequence(t, "{" + k) == (false, [])
    ensures !Parse(t, k).0 ==> ParseSequence(t, "{" + k + "}" + rest) == (false, [])
  {
    hide Parse, ParseSequence;
    if k != "" {
      FindNothing(k, '}');
      assert ("{" + k)[1..] == k;
      ParseSequenceNext(t, "{" + k);
    }
    if !Parse(t, k).0 {
      var s := "{" + k + "}" + rest;
      FindAppend(k, '}', rest);
      assert s[1..] == k + "}" + rest && s[1..|k| + 1] == k;
      ParseSequenceNext(t, s);
    }
  }

  lemma NothingToParse(t: KeyTable)
    ensures ParseSequence(t, "") == (true, [])
  {
  }

  lemma ParseSequenceNext(t: KeyTable, s: string)
    requires s != ""
    ensures var x := TakeOne(t, s);
            if !x.good then ParseSequence(t, s) == (false, [])
            else var rest := ParseSequence(t, s[x.length..]); ParseSequence(t, s) == (rest.0, [x.event] + rest.1)
  {
    hide TakeOne;
  }

  lemma ParseRestNext(t: KeyTable, s: string, ms: Modifiers)
    ensures var found := Find(s, '+');
            if found < 0 then ParseRest(t, s, ms) == (t.keycodeOf(s) != VOID_SYMBOL, Event(t.keycodeOf(s), ms))
            else var mask := ModifierByName(s[..found], 0);
                 ParseRest(t, s, ms)
                   == if mask == {} then (false, Event(0, ms)) else ParseRest(t, s[found + 1..], ms + mask)
  {
    hide Find, ModifierByName;
  }

  // ---------- the events, step by step ----------

  method GetModifierName(ms: Modifiers) returns (name: Option<string>)
    ensures forall bit :: bit in ms && bit < BITS && (forall b :: b in ms ==> b >= bit) ==> name == ModifierName(bit)
    ensures (forall bit :: bit in ms ==> bit >= BITS) ==> name == None
  {
    hide ModifierName;
    for i := 0 to BITS
      invariant forall b :: b in ms ==> b >= i
    {
      if i in ms {
        return ModifierName(i);
      }
    }
    name := None;
  }

  function MaskedFrom(ms: Modifiers, i: nat): Modifiers {
    set bit | bit in ms && InMask(bit) && bit >= i
  }

  lemma MaskedFromNext(ms: Modifiers, i: nat)
    ensures i in MaskedFrom(ms, i) <==> i in ms && InMask(i)
    ensures MaskedFrom(ms, i + 1) == MaskedFrom(ms, i) - {i}
    ensures MaskedFrom(ms, i) != {} ==> i < BITS
    ensures forall b :: b in MaskedFrom(ms, i) ==> b >= i
    ensures ModifierName(i).Some? ==> InMask(i)
  {
    NamesArePlain(i);
  }

  lemma NothingMasked(ms: Modifiers, i: nat)
    requires MaskedFrom(ms, i) == {}
    ensures Prefix(ms, i) == ""
  {
    PrefixShape(ms, i);
    forall bit | bit in NamedFrom(ms, i)
      ensures bit in MaskedFrom(ms, i)
    {
      NamesArePlain(bit);
    }
  }

  /** The names of the modifiers in the mask. */
  method Stringify(modifiers: Modifiers) returns (s: string)
    ensures s == Prefix(modifiers, 0)
  {
    hide ModifierName, MaskedFrom, InMask, Prefix;
    s := "";
    var k := set bit | bit in modifiers && InMask(bit);
    StartMask(modifiers);
    var i := 0;
    while k != {}
      invariant k == MaskedFrom(modifiers, i) && s + Prefix(modifiers, i) == Prefix(modifiers, 0)
      decreases BITS - i
    {
      MaskedFromNext(modifiers, i);
      PrefixNext(modifiers, i, "");
      if i in k {
        var name := GetModifierName(k);
        if name.Some? {
          s := s + name.value + "+";
        }
        k := k - {i};
      }
      i := i + 1;
      NoMore(Prefix(modifiers, i));
      NoMore(Prefix(modifiers, i - 1));
    }
    NothingMasked(modifiers, i);
    NoMore(s);
  }

  lemma NoMore(s: string)
    ensures s + "" == s
  {
  }

  lemma StartMask(ms: Modifiers)
    ensures MaskedFrom(ms, 0) == set bit | bit in ms && InMask(bit)
  {
  }

  class KeyEvent {
    var keycode: int
    var modifier: Modifiers

    constructor ()
      ensures Now() == Event(0, {})
    {
      keycode, modifier := 0, {};
    }

    function Now(): Event
      reads this
    {
      Event(keycode, modifier)
    }

    method ToRepr(t: KeyTable) returns (s: string)
      ensures s == Repr(t, Now())
    {
      // a plus sign after each modifier
      var modifiers := Stringify(modifier);
      // a key that has a name is written by it
      var name := t.nameOf(keycode);
      if name.Some? {
        return modifiers + name.value;
      }
      // one that has none, by its code
      if keycode <= 0xffffff {
        return modifiers + t.hexOf(keycode);
      }
      s := "(unknown)";
    }

    method FromRepr(t: KeyTable, repr: string) returns (ok: bool)
      modifies this
      ensures (ok, Now()) == Parse(t, repr)
    {
      hide ModifierByName, ParseRest, Find;
      keycode, modifier := 0, {};
      if repr == "" {
        return false;
      }
      if |repr| == 1 {
        keycode := repr[0] as int;
        return true;
      }
      var start := 0;
      var found := Find(repr, '+');
      assert repr[0..] == repr;
      while found >= 0
        invariant start <= |repr| && found == Find(repr[start..], '+')
        invariant keycode == 0 && ParseRest(t, repr[start..], modifier) == Parse(t, repr)
        decreases |repr| - start
      {
        ParseRestNext(t, repr[start..], modifier);
        var token := repr[start..start + found];
        assert repr[start..][..found] == token;
        var mask := ModifierByName(token, 0);
        if mask == {} {
          return false;
        }
        modifier := modifier + mask;
        assert repr[start..][found + 1..] == repr[start + found + 1..];
        start := start + found + 1;
        found := Find(repr[start..], '+');
      }
      ParseRestNext(t, repr[start..], modifier);
      keycode := t.keycodeOf(repr[start..]);
      return keycode != VOID_SYMBOL;
    }
  }

  class KeySequence {
    var events: seq<Event>

    constructor ()
      ensures events == []
    {
      events := [];
    }

    method ToRepr(t: KeyTable) returns (s: string)
      ensures s == SequenceRepr(t, events)
    {
      hide Repr, SequenceRepr, Braced;
      s := "";
      assert events[0..] == events;
      for i := 0 to |events|
        invariant s + SequenceRepr(t, events[i..]) == SequenceRepr(t, events)
      {
        SequenceReprNext(t, events, i);
        var k := WriteOne(t, events[i]);
        assert s + (k + SequenceRepr(t, events[i + 1..])) == (s + k) + SequenceRepr(t, events[i + 1..]);
        s := s + k;
      }
      NothingToWrite(t, events[|events|..]);
    }

    lemma NothingToWrite(t: KeyTable, es: seq<Event>)
      requires es == []
      ensures SequenceRepr(t, es) == ""
    {
    }

    lemma SequenceReprNext(t: KeyTable, es: seq<Event>, i: nat)
      requires i < |es|
      ensures SequenceRepr(t, es[i..]) == Braced(Repr(t, es[i])) + SequenceRepr(t, es[i + 1..])
    {
      assert es[i..][1..] == es[i + 1..];
    }

    /** Keys that are not written as one character are put in braces. */
    method WriteOne(t: KeyTable, e: Event) returns (s: string)
      ensures s == Braced(Repr(t, e))
    {
      hide Repr;
      var ke := new KeyEvent();
      ke.keycode, ke.modifier := e.keycode, e.modifiers;
      var k := ke.ToRepr(t);
      if |k| == 1 {
        s := k;
      } else {
        s := "{" + k + "}";
      }
    }

    /** Reads one event at `start`. */
    method ReadOne(t: KeyTable, repr: string, start: nat) returns (x: Taken)
      requires start < |repr|
      ensures x == TakeOne(t, repr[start..])
    {
      hide Parse, Find;
      var ke := new KeyEvent();
      var rest := repr[start..];
      if repr[start] == '{' && start + 1 < |repr| {
        assert rest[1..] == repr[start + 1..];
        var len := Find(repr[start + 1..], '}');
        if len < 0 {
          // the brace is never closed
          return Taken(false, Event(0, {}), 0);
        }
        assert rest[1..len + 1] == repr[start + 1..start + 1 + len];
        var good := ke.FromRepr(t, repr[start + 1..start + 1 + len]);
        return Taken(good, ke.Now(), len + 2);
      }
      assert rest[..1] == repr[start..start + 1];
      var good := ke.FromRepr(t, repr[start..start + 1]);
      x := Taken(good, ke.Now(), 1);
    }

    method FromRepr(t: KeyTable, repr: string) returns (ok: bool)
      modifies this
      ensures ok == ParseSequence(t, repr).0 && events == ParseSequence(t, repr).1
    {
      hide TakeOne, ParseSequence;
      events := [];
      var i := 0;
      assert repr[0..] == repr;
      while i < |repr|
        invariant i <= |repr| && Completes(ParseSequence(t, repr[i..]), ParseSequence(t, repr))
        decreases |repr| - i
      {
        ParseSequenceNext(t, repr[i..]);
        var x := ReadOne(t, repr, i);
        if !x.good {
          return false;
        }
        assert repr[i..][x.length..] == repr[i + x.length..];
        events := events + [x.event];
        i := i + x.length;
      }
      NothingToParse(t);
      assert repr[i..] == "" && events + [] == events;
      ok := true;
    }

    /** The events so far and those that are still to be read make up the whole. */
    ghost predicate Completes(rest: (bool, seq<Event>), whole: (bool, seq<Event>))
      reads this
    {
      rest.0 == whole.0 && events + rest.1 == whole.1
    }
  }
}
