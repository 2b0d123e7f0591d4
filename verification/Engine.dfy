/** Composing: segmentors cut the active input, and translators offer candidates for the segments. */
module Engines {
  import opened Spellings
  import opened Segmentations

  /** A segmentor adds segments, and says whether the next segmentor may have its turn. */
  datatype Segmentor = Segmentor(propose: (string, Segments) -> seq<Segment>, goOn: (string, Segments) -> bool)

  /** What a translator offers for a segment, and the prompt it leaves there. */
  datatype Offer = Offer(menu: seq<Candidate>, prompt: string)

  datatype Engine = Engine(segmentors: seq<Segmentor>, translate: (string, Segment) -> Offer)

  /** Segmentors stay within the input, and candidates end after the start of their segment. */
  ghost predicate WellBehaved(e: Engine) {
    && (forall k, input, segs :: 0 <= k < |e.segmentors| ==> Proposes(e.segmentors[k], input, segs))
    && (forall input, seg :: Offers(e, input, seg))
  }

  ghost predicate Proposes(s: Segmentor, input: string, segs: Segments) {
    forall i :: 0 <= i < |s.propose(input, segs)| ==>
      var p := s.propose(input, segs)[i]; p.start <= p.end <= |input| && GoodMenu(p)
  }

  ghost predicate Offers(e: Engine, input: string, seg: Segment) {
    forall c :: c in e.translate(input, seg).menu ==> c.end > seg.start
  }

  // ---------- one round of segmentation ----------

  function AddAll(segs: Segments, ps: seq<Segment>): Segments {
    if ps == [] then segs else Add(AddAll(segs, Init(ps)), Last(ps))
  }

  /** The segmentors from the `k`th on are called in turn. */
  function RoundFrom(e: Engine, input: string, segs: Segments, k: nat): Segments
    decreases |e.segmentors| - k
  {
    if k >= |e.segmentors| then segs else
      var s := e.segmentors[k];
      var added := AddAll(segs, s.propose(input, segs));
      if s.goOn(input, segs) then RoundFrom(e, input, added, k + 1) else added
  }

  function Round(e: Engine, input: string, segs: Segments): Segments {
    RoundFrom(e, input, segs, 0)
  }

  /** Everything that a round keeps. */
  ghost predicate Extends(segs: Segments, out: Segments, n: nat) {
    && Tiles(out, n) && GoodMenus(out)
    && CurrentStart(out) == CurrentStart(segs) && CurrentEnd(out) >= CurrentEnd(segs)
  }

  lemma {:induction false} AddAllExtends(segs: Segments, ps: seq<Segment>, n: nat)
    requires Tiles(segs, n) && GoodMenus(segs)
    requires forall i :: 0 <= i < |ps| ==> ps[i].start <= ps[i].end <= n && GoodMenu(ps[i])
    ensures Extends(segs, AddAll(segs, ps), n)
  {
    if ps != [] {
      AddAllExtends(segs, Init(ps), n);
      AddTiles(AddAll(segs, Init(ps)), Last(ps), n);
    }
  }

  lemma {:induction false} RoundExtends(e: Engine, input: string, segs: Segments, k: nat)
    requires WellBehaved(e) && Tiles(segs, |input|) && GoodMenus(segs)
    ensures Extends(segs, RoundFrom(e, input, segs, k), |input|)
    decreases |e.segmentors| - k
  {
    if k < |e.segmentors| {
      var s := e.segmentors[k];
      assert Proposes(s, input, segs);
      var added := AddAll(segs, s.propose(input, segs));
      AddAllExtends(segs, s.propose(input, segs), |input|);
      hide Tiles, WellBehaved;
      if s.goOn(input, segs) {
        RoundExtends(e, input, added, k + 1);
      }
    }
  }

  // ---------- the whole segmentation ----------

  /** Rounds are played until the input is covered or a round makes no progress. */
  ghost function Rounds(e: Engine, input: string, segs: Segments): Segments
    requires WellBehaved(e) && Tiles(segs, |input|) && GoodMenus(segs)
    decreases |input| - CurrentStart(segs)
  {
    if CurrentEnd(segs) >= |input| then segs else
      RoundExtends(e, input, segs, 0);
      var out := Round(e, input, segs);
      if CurrentStart(segs) == CurrentEnd(out) || CurrentEnd(out) >= |input| then out else
        ForwardTiles(out, |input|);
        Rounds(e, input, Forward(out))
  }

  /** An empty segment is left only after a selected one. */
  function Settle(segs: Segments): Segments {
    var t := Trim(segs);
    if t != [] && Last(t).status >= SELECTED then Forward(t) else t
  }

  ghost function Segmented(e: Engine, input: string, segs: Segments): Segments
    requires WellBehaved(e) && Tiles(segs, |input|) && GoodMenus(segs)
  {
    Settle(Rounds(e, input, segs))
  }

  /** A round from `segs` does not get past the start of its last segment. */
  ghost predicate Stuck(e: Engine, input: string, segs: Segments) {
    CurrentEnd(segs) < |input| && CurrentEnd(Round(e, input, segs)) == CurrentStart(segs)
  }

  // ---------- rounds, turn by turn ----------

  /** The segments that are proposed are added from the first to the last. */
  lemma {:induction false} AddAllFromFirst(segs: Segments, p: Segment, ps: seq<Segment>)
    ensures AddAll(segs, []) == segs && AddAll(segs, [p] + ps) == AddAll(Add(segs, p), ps)
    decreases |ps|
  {
    if ps == [] {
      assert [p] + ps == [p] && Init([p]) == [];
    } else {
      hide Add;
      assert Init([p] + ps) == [p] + Init(ps);
      AddAllFromFirst(segs, p, Init(ps));
    }
  }

  /** The states of a round from segmentor `k` on: each segmentor adds what it proposes in the state before it, all but
      the last let the round go on, and the last is the last there is or ends the round. */
  ghost predicate Played(e: Engine, input: string, k: nat, states: seq<Segments>) {
    && 1 <= |states| <= |e.segmentors| - k + 1
    && (forall i :: 0 <= i < |states| - 1 ==>
          var s := e.segmentors[k + i];
          states[i + 1] == AddAll(states[i], s.propose(input, states[i]))
          && (i < |states| - 2 ==> s.goOn(input, states[i])))
    && (|states| - 1 == |e.segmentors| - k
        || (|states| > 1 && !e.segmentors[k + |states| - 2].goOn(input, states[|states| - 2])))
  }

  lemma {:induction false} RoundExactly(e: Engine, input: string, segs: Segments, k: nat)
    requires k <= |e.segmentors|
    ensures exists states ::
      Played(e, input, k, states) && states[0] == segs && states[|states| - 1] == RoundFrom(e, input, segs, k)
    decreases |e.segmentors| - k
  {
    hide AddAll;
    if k == |e.segmentors| {
      assert Played(e, input, k, [segs]);
    } else {
      var s := e.segmentors[k];
      var added := AddAll(segs, s.propose(input, segs));
      if s.goOn(input, segs) {
        RoundExactly(e, input, added, k + 1);
        var rest :| Played(e, input, k + 1, rest) && rest[0] == added
          && rest[|rest| - 1] == RoundFrom(e, input, added, k + 1);
        PlayedNext(e, input, segs, k, rest);
      } else {
        assert Played(e, input, k, [segs, added]);
      }
    }
  }

  lemma PlayedNext(e: Engine, input: string, segs: Segments, k: nat, rest: seq<Segments>)
    requires k < |e.segmentors| && Played(e, input, k + 1, rest) && e.segmentors[k].goOn(input, segs)
    requires rest[0] == AddAll(segs, e.segmentors[k].propose(input, segs))
    ensures Played(e, input, k, [segs] + rest)
    ensures ([segs] + rest)[0] == segs && ([segs] + rest)[|rest|] == rest[|rest| - 1]
  {
  }

  /** The states before the rounds of a segmentation: each round but the last gets past the start of its segment, not to
      the end of the input, and is followed by a fresh segment. */
  ghost predicate Advancing(e: Engine, input: string, states: seq<Segments>) {
    && states != []
    && forall i :: 0 <= i < |states| - 1 ==>
         var out := Round(e, input, states[i]);
         CurrentEnd(states[i]) < |input| && CurrentEnd(out) != CurrentStart(states[i]) && CurrentEnd(out) < |input|
         && states[i + 1] == Forward(out)
  }

  /** The last state is at the end of the input, or its round ends the segmentation: at the end of the input, or at the
      start of its own segment. */
  lemma {:induction false} RoundsExactly(e: Engine, input: string, segs: Segments)
    requires WellBehaved(e) && Tiles(segs, |input|) && GoodMenus(segs)
    ensures exists states ::
      && Advancing(e, input, states) && states[0] == segs
      && var last := states[|states| - 1];
         if CurrentEnd(last) >= |input| then Rounds(e, input, segs) == last
         else Rounds(e, input, segs) == Round(e, input, last)
              && (CurrentEnd(Round(e, input, last)) == CurrentStart(last)
                  || CurrentEnd(Round(e, input, last)) >= |input|)
    decreases |input| - CurrentStart(segs)
  {
    if CurrentEnd(segs) < |input| {
      RoundExtends(e, input, segs, 0);
      var out := Round(e, input, segs);
      hide Tiles, WellBehaved, GoodMenus, RoundFrom;
      if CurrentStart(segs) != CurrentEnd(out) && CurrentEnd(out) < |input| {
        ForwardTiles(out, |input|);
        RoundsExactly(e, input, Forward(out));
        var rest :| Advancing(e, input, rest) && rest[0] == Forward(out)
          && var last := rest[|rest| - 1];
             if CurrentEnd(last) >= |input| then Rounds(e, input, Forward(out)) == last
             else Rounds(e, input, Forward(out)) == Round(e, input, last)
                  && (CurrentEnd(Round(e, input, last)) == CurrentStart(last)
                      || CurrentEnd(Round(e, input, last)) >= |input|);
        AdvancingNext(e, input, segs, rest);
        return;
      }
    }
    assert Advancing(e, input, [segs]);
  }

  lemma AdvancingNext(e: Engine, input: string, segs: Segments, rest: seq<Segments>)
    requires Advancing(e, input, rest) && rest[0] == Forward(Round(e, input, segs)) && CurrentEnd(segs) < |input|
    requires CurrentEnd(Round(e, input, segs)) != CurrentStart(segs) && CurrentEnd(Round(e, input, segs)) < |input|
    ensures Advancing(e, input, [segs] + rest)
    ensures ([segs] + rest)[0] == segs && ([segs] + rest)[|rest|] == rest[|rest| - 1]
  {
    hide RoundFrom, Forward;
  }

  /** Segmentation keeps the tiling, and reaches the end of the input unless some round is stuck. */
  lemma {:induction false} RoundsReach(e: Engine, input: string, segs: Segments)
    requires WellBehaved(e) && Tiles(segs, |input|) && GoodMenus(segs)
    ensures var out := Rounds(e, input, segs);
      && Tiles(out, |input|) && GoodMenus(out)
      && (CurrentEnd(out) >= |input|
          || exists s :: Tiles(s, |input|) && Stuck(e, input, s) && out == Round(e, input, s))
    decreases |input| - CurrentStart(segs)
  {
    if CurrentEnd(segs) < |input| {
      RoundExtends(e, input, segs, 0);
      var out := Round(e, input, segs);
      hide Tiles;
      if CurrentStart(segs) == CurrentEnd(out) {
        assert Stuck(e, input, segs);
      } else if CurrentEnd(out) < |input| {
        ForwardTiles(out, |input|);
        RoundsReach(e, input, Forward(out));
      }
    }
  }

  lemma SettleTiles(segs: Segments, n: nat)
    requires Tiles(segs, n) && GoodMenus(segs)
    ensures Tiles(Settle(segs), n) && GoodMenus(Settle(segs)) && CurrentEnd(Settle(segs)) == CurrentEnd(segs)
    ensures Settle(segs) != [] && Last(Settle(segs)).Empty()
      <==> Trim(segs) != [] && Last(Trim(segs)).status >= SELECTED
  {
    TrimTiles(segs, n);
    ForwardTiles(Trim(segs), n);
  }

  /** If every round makes progress, the whole input is segmented. */
  lemma SegmentationFinishes(e: Engine, input: string, segs: Segments)
    requires WellBehaved(e) && Tiles(segs, |input|) && GoodMenus(segs)
    requires forall s :: Tiles(s, |input|) ==> !Stuck(e, input, s)
    ensures CurrentEnd(Segmented(e, input, segs)) == |input|
  {
    RoundsReach(e, input, segs);
    SettleTiles(Rounds(e, input, segs), |input|);
    hide Stuck, Rounds, Settle;
  }

  // ---------- translation ----------

  function TranslateOne(e: Engine, input: string, seg: Segment): Segment {
    if seg.status >= GUESS || seg.Empty() then seg else
      var offer := e.translate(Slice(input, seg.start, seg.end), seg);
      seg.(status := GUESS, menu := Some(offer.menu), selectedIndex := 0, prompt := offer.prompt)
  }

  function Translated(e: Engine, input: string, segs: Segments): Segments {
    if segs == [] then [] else Translated(e, input, Init(segs)) + [TranslateOne(e, input, Last(segs))]
  }

  lemma {:induction false} TranslatedTiles(e: Engine, input: string, segs: Segments, n: nat)
    requires WellBehaved(e) && Tiles(segs, n) && GoodMenus(segs)
    ensures Tiles(Translated(e, input, segs), n) && GoodMenus(Translated(e, input, segs))
    ensures CurrentEnd(Translated(e, input, segs)) == CurrentEnd(segs)
    ensures |Translated(e, input, segs)| == |segs|
    ensures segs != [] ==> Last(Translated(e, input, segs)).Empty() == Last(segs).Empty()
  {
    if segs != [] {
      TranslatedTiles(e, input, Init(segs), n);
      var last := TranslateOne(e, input, Last(segs));
      assert Offers(e, Slice(input, Last(segs).start, Last(segs).end), Last(segs));
      assert GoodMenu(last);
      hide WellBehaved;
      TilesPush(Translated(e, input, Init(segs)), last, n);
    }
  }

  /** Segments after translation: the same positions, and no segment with text is left untranslated. */
  lemma {:induction false} TranslatedExactly(e: Engine, input: string, segs: Segments, i: nat)
    requires i < |segs|
    ensures |Translated(e, input, segs)| == |segs|
    ensures Translated(e, input, segs)[i] == TranslateOne(e, input, segs[i])
    ensures Translated(e, input, segs)[i].start == segs[i].start && Translated(e, input, segs)[i].end == segs[i].end
    ensures segs[i].Empty() || Translated(e, input, segs)[i].status >= GUESS
    decreases |segs|
  {
    if i < |segs| - 1 {
      TranslatedExactly(e, input, Init(segs), i);
    } else if |segs| > 1 {
      TranslatedExactly(e, input, Init(segs), 0);
    }
  }

  /** A segment that has text and has not been translated gets what the translators offer for that text, and the first
      candidate of it; any other stays as it is. */
  ghost predicate Asked(e: Engine, input: string, before: Segment, after: Segment) {
    if before.status != VOID || before.start == before.end then after == before
    else if before.start < before.end <= |input| then
      var offer := e.translate(input[before.start..before.end], before);
      after == Segment(GUESS, before.start, before.end, before.tags, Some(offer.menu), 0, offer.prompt)
    else after.start == before.start && after.end == before.end
  }

  ghost predicate AllAsked(e: Engine, input: string, before: Segments, after: Segments) {
    |after| == |before| && forall i :: 0 <= i < |before| ==> Asked(e, input, before[i], after[i])
  }

  lemma TranslationAsks(e: Engine, input: string, segs: Segments)
    ensures AllAsked(e, input, segs, Translated(e, input, segs))
  {
    forall i | 0 <= i < |segs|
      ensures |Translated(e, input, segs)| == |segs| && Asked(e, input, segs[i], Translated(e, input, segs)[i])
    {
      TranslatedExactly(e, input, segs, i);
    }
    assert segs == [] ==> Translated(e, input, segs) == [];
  }

  // ---------- one composition ----------

  /** What composing makes of the segments when the active input becomes `newInput`. */
  ghost function Composed(e: Engine, input: string, segs: Segments, newInput: string): Segments
    requires WellBehaved(e) && Tiles(segs, |input|) && GoodMenus(segs)
  {
    ResetTiles(input, segs, newInput);
    Translated(e, newInput, Segmented(e, newInput, Reset(input, segs, newInput)))
  }

  lemma ComposedTiles(e: Engine, input: string, segs: Segments, newInput: string)
    requires WellBehaved(e) && Tiles(segs, |input|) && GoodMenus(segs)
    ensures Tiles(Composed(e, input, segs, newInput), |newInput|) && GoodMenus(Composed(e, input, segs, newInput))
  {
    hide Tiles;
    ResetTiles(input, segs, newInput);
    var reset := Reset(input, segs, newInput);
    RoundsReach(e, newInput, reset);
    SettleTiles(Rounds(e, newInput, reset), |newInput|);
    TranslatedTiles(e, newInput, Segmented(e, newInput, reset), |newInput|);
  }

  /** After composing, every segment that has text has been translated. */
  lemma ComposedIsTranslated(e: Engine, input: string, segs: Segments, newInput: string, i: nat)
    requires WellBehaved(e) && Tiles(segs, |input|) && GoodMenus(segs)
    requires i < |Composed(e, input, segs, newInput)|
    ensures var seg := Composed(e, input, segs, newInput)[i]; seg.start < seg.end ==> seg.status >= GUESS
  {
    ResetTiles(input, segs, newInput);
    var settled := Segmented(e, newInput, Reset(input, segs, newInput));
    hide Segmented, Reset, Tiles, WellBehaved;
    TranslationAsks(e, newInput, settled);
    TranslatedExactly(e, newInput, settled, i);
  }

  /** If every round makes progress, the segments reach the end of the input. */
  lemma ComposedFinishes(e: Engine, input: string, segs: Segments, newInput: string)
    requires WellBehaved(e) && Tiles(segs, |input|) && GoodMenus(segs)
    requires forall s :: Tiles(s, |newInput|) ==> !Stuck(e, newInput, s)
    ensures CurrentEnd(Composed(e, input, segs, newInput)) == |newInput|
  {
    ResetTiles(input, segs, newInput);
    var reset := Reset(input, segs, newInput);
    RoundsReach(e, newInput, reset);
    SettleTiles(Rounds(e, newInput, reset), |newInput|);
    SegmentationFinishes(e, newInput, reset);
    hide Stuck, Rounds, Settle, Tiles, Translated, Reset;
    TranslatedTiles(e, newInput, Segmented(e, newInput, reset), |newInput|);
  }

  // ---------- what a composition leaves alone ----------

  lemma {:induction false} AddAllKeeps(segs: Segments, ps: seq<Segment>)
    requires segs != []
    ensures AddAll(segs, ps) != [] && Init(AddAll(segs, ps)) == Init(segs)
  {
    if ps != [] {
      AddAllKeeps(segs, Init(ps));
    }
  }

  /** A round works on the last segment only. */
  lemma {:induction false} RoundKeeps(e: Engine, input: string, segs: Segments, k: nat)
    requires segs != []
    ensures RoundFrom(e, input, segs, k) != [] && Init(RoundFrom(e, input, segs, k)) == Init(segs)
    decreases |e.segmentors| - k
  {
    if k < |e.segmentors| {
      var s := e.segmentors[k];
      AddAllKeeps(segs, s.propose(input, segs));
      if s.goOn(input, segs) {
        RoundKeeps(e, input, AddAll(segs, s.propose(input, segs)), k + 1);
      }
    }
  }

  lemma {:induction false} RoundsKeep(e: Engine, input: string, segs: Segments)
    requires WellBehaved(e) && Tiles(segs, |input|) && GoodMenus(segs) && segs != []
    ensures Rounds(e, input, segs) != [] && Init(segs) <= Init(Rounds(e, input, segs))
    decreases |input| - CurrentStart(segs)
  {
    if CurrentEnd(segs) < |input| {
      RoundExtends(e, input, segs, 0);
      RoundKeeps(e, input, segs, 0);
      var out := Round(e, input, segs);
      hide Tiles, WellBehaved, GoodMenus, RoundFrom;
      if CurrentStart(segs) != CurrentEnd(out) && CurrentEnd(out) < |input| {
        ForwardTiles(out, |input|);
        RoundsKeep(e, input, Forward(out));
      }
    }
  }

  lemma SettleKeeps(segs: Segments)
    requires segs != []
    ensures Init(segs) <= Settle(segs)
  {
  }

  /** All segments before the last one are still before the last one after a reset, if they end in time. */
  lemma ResetLeavesMore(input: string, segs: Segments, newInput: string, i: nat)
    requires Tiles(segs, |input|) && i + 1 < |segs| && segs[i].end <= CommonPrefix(input, newInput)
    ensures i + 1 < |Reset(input, segs, newInput)|
  {
    var n := CommonPrefix(input, newInput);
    var kept := Within(segs, n);
    WithinExactly(segs, |input|, n, i);
    WithinTiles(segs, |input|, n);
    if |kept| == i + 1 {
      OnlyLastEmpty(segs, |input|, i);
      assert Last(kept) == segs[i];
    }
  }

  lemma {:induction false} OnlyLastEmpty(segs: Segments, n: nat, i: nat)
    requires Tiles(segs, n) && i + 1 < |segs|
    ensures !segs[i].Empty()
  {
    if i + 2 < |segs| {
      OnlyLastEmpty(Init(segs), n, i);
    } else {
      assert Last(Init(segs)) == segs[i];
    }
  }

  /** Composing again leaves every segment but the last as it is, if it ends before the input changes and has been
      offered its candidates. */
  lemma ComposedKeeps(e: Engine, input: string, segs: Segments, newInput: string, i: nat)
    requires WellBehaved(e) && Tiles(segs, |input|) && GoodMenus(segs)
    requires i + 1 < |segs| && segs[i].end <= CommonPrefix(input, newInput) && segs[i].status >= GUESS
    ensures i < |Composed(e, input, segs, newInput)| && Composed(e, input, segs, newInput)[i] == segs[i]
  {
    var reset := Reset(input, segs, newInput);
    ResetTiles(input, segs, newInput);
    ResetKeeps(input, segs, newInput, i);
    ResetLeavesMore(input, segs, newInput, i);
    hide Tiles, WellBehaved, GoodMenus, Reset, Rounds, Translated, Settle;
    RoundsKeep(e, newInput, reset);
    SettleKeeps(Rounds(e, newInput, reset));
    var settled := Segmented(e, newInput, reset);
    assert settled[i] == Init(reset)[i] == segs[i];
    TranslatedExactly(e, newInput, settled, i);
  }

  /** The last segment is open: it is still to be selected, or empty. */
  predicate Open(segs: Segments) {
    segs == [] || Last(segs).status < SELECTED || Last(segs).Empty()
  }

  lemma ForwardOpens(segs: Segments)
    ensures Open(Forward(segs))
  {
  }

  /** Composing always leaves the last segment open. */
  lemma ComposedOpens(e: Engine, input: string, segs: Segments, newInput: string)
    requires WellBehaved(e) && Tiles(segs, |input|) && GoodMenus(segs)
    ensures Open(Composed(e, input, segs, newInput))
  {
    ResetTiles(input, segs, newInput);
    var reset := Reset(input, segs, newInput);
    SettleOpens(Rounds(e, newInput, reset));
    TranslatedOpens(e, newInput, Segmented(e, newInput, reset));
  }

  lemma SettleOpens(segs: Segments)
    ensures Open(Settle(segs))
  {
  }

  lemma TranslatedOpens(e: Engine, input: string, segs: Segments)
    requires Open(segs)
    ensures Open(Translated(e, input, segs))
  {
    if segs != [] {
      TranslatedExactly(e, input, segs, |segs| - 1);
    }
  }

  /** If the last segment is open, composing again touches no selected segment that has text and ends before the input
      changes. */
  lemma SelectedStays(e: Engine, input: string, segs: Segments, newInput: string, i: nat)
    requires WellBehaved(e) && Tiles(segs, |input|) && GoodMenus(segs) && Open(segs)
    requires i < |segs| && segs[i].end <= CommonPrefix(input, newInput)
    requires segs[i].status >= SELECTED && !segs[i].Empty()
    ensures i < |Composed(e, input, segs, newInput)| && Composed(e, input, segs, newInput)[i] == segs[i]
  {
    ComposedKeeps(e, input, segs, newInput, i);
  }

  // ---------- the engine at work ----------

  /** One segmentor adds its segments. */
  method Proceed(s: Segmentor, comp: Segmentation) returns (goOn: bool)
    modifies comp`segments
    ensures comp.segments == AddAll(old(comp.segments), s.propose(comp.input, old(comp.segments)))
    ensures goOn == s.goOn(comp.input, old(comp.segments))
  {
    var ps := s.propose(comp.input, comp.segments);
    goOn := s.goOn(comp.input, comp.segments);
    for i := 0 to |ps|
      invariant comp.segments == AddAll(old(comp.segments), ps[..i])
    {
      assert Init(ps[..i + 1]) == ps[..i];
      var _ := comp.AddSegment(ps[i]);
    }
    assert ps[..|ps|] == ps;
  }

  /** Calls the segmentors in turn. */
  method PlayRound(e: Engine, comp: Segmentation)
    modifies comp`segments
    ensures comp.segments == Round(e, comp.input, old(comp.segments))
  {
    var k := 0;
    while k < |e.segmentors|
      invariant k <= |e.segmentors|
      invariant RoundFrom(e, comp.input, comp.segments, k) == Round(e, comp.input, old(comp.segments))
    {
      var goOn := Proceed(e.segmentors[k], comp);
      if !goOn {
        assert comp.segments == Round(e, comp.input, old(comp.segments));
        return;
      }
      k := k + 1;
    }
  }

  method CalculateSegmentation(e: Engine, comp: Segmentation)
    requires WellBehaved(e) && Tiles(comp.segments, |comp.input|) && GoodMenus(comp.segments)
    modifies comp`segments
    ensures comp.segments == Segmented(e, comp.input, old(comp.segments))
  {
    hide Tiles, GoodMenus, WellBehaved, RoundFrom;
    ghost var target := Rounds(e, comp.input, comp.segments);
    var advancing := true;
    while advancing && !comp.HasFinished()
      invariant Tiles(comp.segments, |comp.input|) && GoodMenus(comp.segments)
      invariant if advancing then Rounds(e, comp.input, comp.segments) == target else comp.segments == target
      decreases advancing, if comp.HasFinished() then 0 else |comp.input| + 1 - CurrentStart(comp.segments)
    {
      var startPos := CurrentStart(comp.segments);
      StartsBeforeEnd(comp.segments, |comp.input|);
      RoundExtends(e, comp.input, comp.segments, 0);
      PlayRound(e, comp);
      // the round ended where it started
      if startPos == CurrentEnd(comp.segments) {
        advancing := false;
      } else if !comp.HasFinished() {
        ForwardTiles(comp.segments, |comp.input|);
        var _ := comp.Advance();
      }
      StartsBeforeEnd(comp.segments, |comp.input|);
    }
    // an empty segment stays only behind a selected one
    var _ := comp.RemoveTrailing();
    if comp.segments != [] && Last(comp.segments).status >= SELECTED {
      var _ := comp.Advance();
    }
  }

  lemma StartsBeforeEnd(segs: Segments, n: nat)
    requires Tiles(segs, n)
    ensures CurrentStart(segs) <= CurrentEnd(segs) <= n
  {
  }

  method TranslateSegments(e: Engine, comp: Segmentation)
    modifies comp`segments
    ensures comp.segments == Translated(e, comp.input, old(comp.segments))
    ensures AllAsked(e, comp.input, old(comp.segments), comp.segments)
  {
    hide AllAsked;
    var segs := comp.segments;
    for i := 0 to |segs|
      invariant |comp.segments| == |segs| && comp.segments[i..] == segs[i..]
      invariant comp.segments[..i] == Translated(e, comp.input, segs[..i])
    {
      var segment := comp.segments[i];
      assert Init(segs[..i + 1]) == segs[..i] && Last(segs[..i + 1]) == segs[i] && segment == segs[i];
      if segment.status < GUESS && !segment.Empty() {
        var offer := e.translate(Slice(comp.input, segment.start, segment.end), segment);
        segment := segment.(status := GUESS, menu := Some(offer.menu), selectedIndex := 0, prompt := offer.prompt);
      }
      assert segment == TranslateOne(e, comp.input, segs[i]);
      comp.segments := comp.segments[i := segment];
      assert comp.segments[..i + 1] == comp.segments[..i] + [segment];
    }
    assert segs[..|segs|] == segs;
    assert comp.segments[..|segs|] == comp.segments;
    TranslationAsks(e, comp.input, segs);
  }
}
