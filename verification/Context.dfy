/** The context: what every editing and selection operation makes of the input, the caret and the composition. */
module Contexts {
  import opened Spellings
  import opened Segmentations
  import opened Engines
  import opened Compositions

  datatype State = State(input: string, caret: nat, compInput: string, segs: Segments,
                         options: map<string, bool>, committed: seq<string>) {
    predicate Option(name: string) {
      name in options && options[name]
    }
  }

  const INITIAL := State("", 0, "", [], map[], [])

  /** What composing needs: the caret is in the input, and the segments tile what was composed last. */
  ghost predicate Sound(st: State) {
    st.caret <= |st.input| && Tiles(st.segs, |st.compInput|) && GoodMenus(st.segs)
  }

  /** What every operation leaves behind: the composition is about the input before the caret. */
  ghost predicate Inv(st: State) {
    Sound(st) && st.compInput == st.input[..st.caret]
  }

  // ---------- the operations as functions on states ----------

  ghost function Compose(e: Engine, st: State): (r: State)
    requires WellBehaved(e) && Sound(st)
    ensures Inv(r) && r.input == st.input && r.caret == st.caret
  {
    var active := st.input[..st.caret];
    ComposedTiles(e, st.compInput, st.segs, active);
    st.(compInput := active, segs := Composed(e, st.compInput, st.segs, active))
  }

  ghost function PushInput(e: Engine, st: State, s: string): (r: State)
    requires WellBehaved(e) && Sound(st)
    ensures Inv(r)
  {
    Compose(e, st.(input := st.input[..st.caret] + s + st.input[st.caret..], caret := st.caret + |s|))
  }

  ghost function PopInput(e: Engine, st: State, len: nat): (r: State)
    requires WellBehaved(e) && Inv(st)
    ensures Inv(r)
  {
    if st.caret < len then st else
      var at := st.caret - len;
      Compose(e, st.(input := st.input[..at] + st.input[st.caret..], caret := at))
  }

  ghost function DeleteInput(e: Engine, st: State, len: nat): (r: State)
    requires WellBehaved(e) && Inv(st)
    ensures Inv(r)
  {
    if st.caret + len > |st.input| then st else
      Compose(e, st.(input := st.input[..st.caret] + st.input[st.caret + len..]))
  }

  ghost function Clear(e: Engine, st: State): (r: State)
    requires WellBehaved(e)
    ensures Inv(r) && r.input == ""
  {
    Compose(e, st.(input := "", caret := 0, segs := []))
  }

  ghost function SetCaret(e: Engine, st: State, pos: nat): (r: State)
    requires WellBehaved(e) && Sound(st)
    ensures Inv(r)
  {
    Compose(e, st.(caret := if pos > |st.input| then |st.input| else pos))
  }

  ghost function SetInput(e: Engine, st: State, value: string): (r: State)
    requires WellBehaved(e) && Sound(st)
    ensures Inv(r)
  {
    Compose(e, st.(input := value, caret := |value|))
  }

  /** The text is handed over, unless the engine is told to be dumb, and everything starts over. */
  ghost function Commit(e: Engine, st: State): (r: State)
    requires WellBehaved(e)
    ensures Inv(st) ==> Inv(r)
  {
    if st.input == "" then st else
      var text := if st.Option("dumb") then "" else CommitText(st.compInput, st.segs);
      Clear(e, st.(committed := st.committed + [text]))
  }

  function WithLast(segs: Segments, seg: Segment): Segments
    requires segs != []
  {
    Init(segs) + [seg]
  }

  /** A partially matched candidate ends its segment early. */
  function Shortened(seg: Segment): Segment {
    match seg.SelectedCandidate()
    case Some(cand) => if cand.end < seg.end then seg.(end := cand.end) else seg
    case None => seg
  }

  /** The engine goes on after a selection. */
  ghost function OnSelect(e: Engine, st: State): (r: State)
    requires WellBehaved(e) && Inv(st) && st.segs != []
    ensures Inv(r)
  {
    ShortenedTiles(st.segs, |st.compInput|);
    var seg := Shortened(Last(st.segs));
    if seg.end == |st.input| then
      var confirmed := WithLast(st.segs, seg.(status := CONFIRMED));
      StatusTiles(WithLast(st.segs, seg), |st.segs| - 1, CONFIRMED, |st.compInput|);
      assert confirmed == WithStatus(WithLast(st.segs, seg), |st.segs| - 1, CONFIRMED);
      if st.Option("auto_commit") then Commit(e, st.(segs := confirmed))
      else
        ForwardTiles(confirmed, |st.compInput|);
        st.(segs := Forward(confirmed))
    else
      var shortened := WithLast(st.segs, seg);
      ForwardTiles(shortened, |st.compInput|);
      var moved := st.(segs := Forward(shortened));
      if seg.end >= st.caret then SetCaret(e, moved, |st.input|) else Compose(e, moved)
  }

  ghost function Select(e: Engine, st: State, index: nat): (r: State)
    requires WellBehaved(e) && Inv(st)
    ensures Inv(r)
  {
    if st.segs == [] || Last(st.segs).CandidateAt(index).None? then st else
      SelectionTiles(st.segs, index, |st.compInput|);
      OnSelect(e, st.(segs := WithLast(st.segs, Last(st.segs).(selectedIndex := index, status := SELECTED))))
  }

  ghost function ConfirmCurrentSelection(e: Engine, st: State): (r: State)
    requires WellBehaved(e) && Inv(st)
    ensures Inv(r)
  {
    if st.segs == [] then st else
      SelectionTiles(st.segs, Last(st.segs).selectedIndex, |st.compInput|);
      var selected := st.(segs := WithLast(st.segs, Last(st.segs).(status := SELECTED)));
      if Last(st.segs).SelectedCandidate().None? && Last(st.segs).Empty() then selected else OnSelect(e, selected)
  }

  /** There is a candidate or raw input to confirm. */
  predicate Confirmable(segs: Segments) {
    segs != [] && (Last(segs).SelectedCandidate().Some? || !Last(segs).Empty())
  }

  /** The last segment that is just selected, unless a confirmed one comes after it. */
  function FindSelected(segs: Segments): (i: int)
    ensures -1 <= i < |segs| && (i >= 0 ==> segs[i].status == SELECTED)
  {
    if segs == [] || Last(segs).status > SELECTED then -1
    else if Last(segs).status == SELECTED then |segs| - 1
    else FindSelected(Init(segs))
  }

  function WithStatus(segs: Segments, i: nat, status: Status): Segments
    requires i < |segs|
  {
    segs[i := segs[i].(status := status)]
  }

  ghost function ConfirmPreviousSelection(st: State): (r: State)
    requires Inv(st)
    ensures Inv(r)
  {
    var i := FindSelected(st.segs);
    if i < 0 then st else
      StatusTiles(st.segs, i, CONFIRMED, |st.compInput|);
      st.(segs := WithStatus(st.segs, i, CONFIRMED))
  }

  ghost function ReopenPreviousSegment(e: Engine, st: State): (r: State)
    requires WellBehaved(e) && Inv(st)
    ensures Inv(r)
  {
    TrimTiles(st.segs, |st.compInput|);
    var t := Trim(st.segs);
    if t == st.segs then st
    else if t != [] && Last(t).status >= SELECTED then
      StatusTiles(t, |t| - 1, VOID, |st.compInput|);
      Compose(e, st.(segs := WithStatus(t, |t| - 1, VOID)))
    else Compose(e, st.(segs := t))
  }

  ghost function ClearPreviousSegment(e: Engine, st: State): (r: State)
    requires WellBehaved(e) && Inv(st)
    ensures Inv(r)
  {
    if st.segs == [] || Last(st.segs).start >= |st.input| then st
    else SetInput(e, st, st.input[..Last(st.segs).start])
  }

  ghost function ReopenPreviousSelection(e: Engine, st: State): (r: State)
    requires WellBehaved(e) && Inv(st)
    ensures Inv(r)
  {
    var i := FindSelected(st.segs);
    if i < 0 then st else
      PrefixTiles(st.segs, i + 1, |st.compInput|);
      StatusTiles(st.segs[..i + 1], i, VOID, |st.compInput|);
      Compose(e, st.(segs := WithStatus(st.segs[..i + 1], i, VOID)))
  }

  /** The segments up to the last one that has been selected. */
  function Confirmed(segs: Segments): (r: Segments)
    ensures r <= segs
  {
    if segs != [] && Last(segs).status < SELECTED then Confirmed(Init(segs)) else segs
  }

  ghost function ClearNonConfirmed(st: State): (r: State)
    requires Inv(st)
    ensures Inv(r)
  {
    var kept := Confirmed(st.segs);
    PrefixTiles(st.segs, |kept|, |st.compInput|);
    assert kept == st.segs[..|kept|];
    ForwardTiles(kept, |st.compInput|);
    if |kept| == |st.segs| then st else st.(segs := Forward(kept))
  }

  ghost function RefreshNonConfirmed(e: Engine, st: State): (r: State)
    requires WellBehaved(e) && Inv(st)
    ensures Inv(r)
  {
    if |Confirmed(st.segs)| == |st.segs| then st else Compose(e, ClearNonConfirmed(st))
  }

  ghost function SetOption(e: Engine, st: State, name: string, value: bool): (r: State)
    requires WellBehaved(e) && Inv(st)
    ensures Inv(r)
  {
    var set_ := st.(options := st.options[name := value]);
    if st.input != "" then RefreshNonConfirmed(e, set_) else set_
  }

  // ---------- what the changes to single segments keep ----------

  lemma ShortenedTiles(segs: Segments, n: nat)
    requires segs != [] && Tiles(segs, n) && GoodMenus(segs)
    ensures Tiles(WithLast(segs, Shortened(Last(segs))), n) && GoodMenus(WithLast(segs, Shortened(Last(segs))))
  {
    var last := Last(segs);
    assert GoodMenu(last);
    assert last.SelectedCandidate().Some? ==> last.SelectedCandidate().value in last.menu.value;
    TilesPush(Init(segs), Shortened(last), n);
  }

  lemma SelectionTiles(segs: Segments, index: nat, n: nat)
    requires segs != [] && Tiles(segs, n) && GoodMenus(segs)
    ensures var r := WithLast(segs, Last(segs).(selectedIndex := index, status := SELECTED));
            Tiles(r, n) && GoodMenus(r)
  {
    assert GoodMenu(Last(segs));
    TilesPush(Init(segs), Last(segs).(selectedIndex := index, status := SELECTED), n);
  }

  lemma {:induction false} StatusTiles(segs: Segments, i: nat, status: Status, n: nat)
    requires i < |segs| && Tiles(segs, n) && GoodMenus(segs)
    ensures Tiles(WithStatus(segs, i, status), n) && GoodMenus(WithStatus(segs, i, status))
    ensures CurrentEnd(WithStatus(segs, i, status)) == CurrentEnd(segs)
    ensures Last(WithStatus(segs, i, status)).Empty() == Last(segs).Empty()
  {
    var r := WithStatus(segs, i, status);
    if i == |segs| - 1 {
      assert Init(r) == Init(segs);
    } else {
      StatusTiles(Init(segs), i, status, n);
      assert Init(r) == WithStatus(Init(segs), i, status);
    }
  }

  lemma {:induction false} PrefixTiles(segs: Segments, k: nat, n: nat)
    requires k <= |segs| && Tiles(segs, n) && GoodMenus(segs)
    ensures Tiles(segs[..k], n) && GoodMenus(segs[..k])
    decreases |segs|
  {
    if k == |segs| {
      assert segs[..k] == segs;
    } else {
      PrefixTiles(Init(segs), k, n);
      assert Init(segs)[..k] == segs[..k];
    }
  }

  // ---------- runs ----------

  datatype Op =
    | Push(s: string) | Pop(len: nat) | Delete(len: nat) | ClearAll
    | SelectAt(index: nat) | ConfirmCurrent | DeleteCurrent | ConfirmPrevious
    | ReopenSegment | ClearSegment | ReopenSelection | ClearUnconfirmed | RefreshUnconfirmed
    | MoveCaret(pos: nat) | Replace(value: string) | Switch(name: string, on: bool) | CommitAll

  ghost function Step(e: Engine, st: State, op: Op): (r: State)
    requires WellBehaved(e) && Inv(st)
    ensures Inv(r)
  {
    match op
    case Push(s) => PushInput(e, st, s)
    case Pop(len) => PopInput(e, st, len)
    case Delete(len) => DeleteInput(e, st, len)
    case ClearAll => Clear(e, st)
    case SelectAt(index) => Select(e, st, index)
    case ConfirmCurrent => ConfirmCurrentSelection(e, st)
    case DeleteCurrent => st
    case ConfirmPrevious => ConfirmPreviousSelection(st)
    case ReopenSegment => ReopenPreviousSegment(e, st)
    case ClearSegment => ClearPreviousSegment(e, st)
    case ReopenSelection => ReopenPreviousSelection(e, st)
    case ClearUnconfirmed => ClearNonConfirmed(st)
    case RefreshUnconfirmed => RefreshNonConfirmed(e, st)
    case MoveCaret(pos) => SetCaret(e, st, pos)
    case Replace(value) => SetInput(e, st, value)
    case Switch(name, on) => SetOption(e, st, name, on)
    case CommitAll => Commit(e, st)
  }

  /** `after` is reached from the initial state by the operations, one after the other. */
  ghost predicate Reaches(e: Engine, ops: seq<Op>, after: State)
    requires WellBehaved(e)
    decreases |ops|
  {
    if ops == [] then after == INITIAL
    else exists st :: Reaches(e, ops[..|ops| - 1], st) && Inv(st) && after == Step(e, st, ops[|ops| - 1])
  }

  lemma RunKeepsInv(e: Engine, ops: seq<Op>, st: State)
    requires WellBehaved(e) && Reaches(e, ops, st)
    ensures Inv(st)
  {
    hide Step;
    if ops != [] {
      var before :| Reaches(e, ops[..|ops| - 1], before) && Inv(before) && st == Step(e, before, ops[|ops| - 1]);
    }
  }

  /** The `i`th segment starts where the one before it ends, ends by `n`, and is not empty unless it is the last. */
  ghost predicate Placed(segs: Segments, n: nat, i: nat)
    requires i < |segs|
  {
    && segs[i].start == (if i == 0 then 0 else segs[i - 1].end)
    && segs[i].start <= segs[i].end <= n
    && (i < |segs| - 1 ==> segs[i].start < segs[i].end)
  }

  /** In every run the segments always tile the input before the caret. */
  lemma EveryRunTiles(e: Engine, ops: seq<Op>, st: State)
    requires WellBehaved(e) && Reaches(e, ops, st)
    ensures st.caret <= |st.input| && st.compInput == st.input[..st.caret]
    ensures forall i :: 0 <= i < |st.segs| ==> Placed(st.segs, st.caret, i)
  {
    hide Reaches, WellBehaved, Tiles, Placed;
    RunKeepsInv(e, ops, st);
    forall i | 0 <= i < |st.segs|
      ensures Placed(st.segs, st.caret, i)
    {
      TilesAt(st.segs, st.caret, i);
    }
  }

  lemma {:induction false} TilesAt(segs: Segments, n: nat, i: nat)
    requires Tiles(segs, n) && i < |segs|
    ensures Placed(segs, n, i)
    decreases |segs|
  {
    if i < |segs| - 1 {
      TilesAt(Init(segs), n, i);
    } else if i > 0 {
      assert Last(Init(segs)) == segs[i - 1];
    }
  }

  // ---------- selected segments over runs ----------

  lemma ComposeOpens(e: Engine, st: State)
    requires WellBehaved(e) && Sound(st)
    ensures Open(Compose(e, st).segs)
  {
    ComposedOpens(e, st.compInput, st.segs, st.input[..st.caret]);
  }

  lemma ClearOpens(e: Engine, st: State)
    requires WellBehaved(e)
    ensures Open(Clear(e, st).segs)
  {
    ComposeOpens(e, st.(input := "", caret := 0, segs := []));
  }

  lemma SetCaretOpens(e: Engine, st: State, pos: nat)
    requires WellBehaved(e) && Sound(st)
    ensures Open(SetCaret(e, st, pos).segs)
  {
    ComposeOpens(e, st.(caret := if pos > |st.input| then |st.input| else pos));
  }

  lemma SetInputOpens(e: Engine, st: State, value: string)
    requires WellBehaved(e) && Sound(st)
    ensures Open(SetInput(e, st, value).segs)
  {
    ComposeOpens(e, st.(input := value, caret := |value|));
  }

  lemma CommitOpens(e: Engine, st: State)
    requires WellBehaved(e) && (st.input == "" ==> Open(st.segs))
    ensures Open(Commit(e, st).segs)
  {
    hide WellBehaved, Open;
    if st.input != "" {
      var text := if st.Option("dumb") then "" else CommitText(st.compInput, st.segs);
      ClearOpens(e, st.(committed := st.committed + [text]));
    }
  }

  lemma EditsOpen(e: Engine, st: State, op: Op)
    requires WellBehaved(e) && Inv(st) && Open(st.segs) && (op.Push? || op.Pop? || op.Delete?)
    ensures Open(Step(e, st, op).segs)
  {
    hide WellBehaved, Tiles, GoodMenus, Open;
    match op
    case Push(s) =>
      ComposeOpens(e, st.(input := st.input[..st.caret] + s + st.input[st.caret..], caret := st.caret + |s|));
    case Pop(len) =>
      if st.caret >= len {
        var at := st.caret - len;
        ComposeOpens(e, st.(input := st.input[..at] + st.input[st.caret..], caret := at));
      }
    case Delete(len) =>
      if st.caret + len <= |st.input| {
        ComposeOpens(e, st.(input := st.input[..st.caret] + st.input[st.caret + len..]));
      }
  }

  lemma NothingIsOpen(segs: Segments)
    requires Tiles(segs, 0)
    ensures Open(segs)
  {
  }

  /** After a selection the engine leaves the last segment open. */
  lemma OnSelectOpens(e: Engine, st: State)
    requires WellBehaved(e) && Inv(st) && st.segs != []
    ensures Open(OnSelect(e, st).segs)
  {
    hide WellBehaved, Tiles, GoodMenus, Open, Shortened;
    ShortenedTiles(st.segs, |st.compInput|);
    var seg := Shortened(Last(st.segs));
    var shortened := WithLast(st.segs, seg);
    if seg.end == |st.input| {
      StatusTiles(shortened, |st.segs| - 1, CONFIRMED, |st.compInput|);
      var confirmed := WithLast(st.segs, seg.(status := CONFIRMED));
      assert confirmed == WithStatus(shortened, |st.segs| - 1, CONFIRMED);
      ForwardOpens(confirmed);
      if st.input == "" { NothingIsOpen(confirmed); }
      if st.Option("auto_commit") {
        CommitOpens(e, st.(segs := confirmed));
      }
    } else {
      ForwardTiles(shortened, |st.compInput|);
      var moved := st.(segs := Forward(shortened));
      SetCaretOpens(e, moved, |st.input|);
      ComposeOpens(e, moved);
    }
  }

  lemma SelectionsOpen(e: Engine, st: State, op: Op)
    requires WellBehaved(e) && Inv(st) && Open(st.segs) && (op.SelectAt? || op.ConfirmCurrent? || op.ConfirmPrevious?)
    ensures Open(Step(e, st, op).segs)
  {
    hide WellBehaved, Tiles, GoodMenus, OnSelect;
    match op
    case SelectAt(index) =>
      if st.segs != [] && Last(st.segs).CandidateAt(index).Some? {
        SelectionTiles(st.segs, index, |st.compInput|);
        OnSelectOpens(e, st.(segs := WithLast(st.segs, Last(st.segs).(selectedIndex := index, status := SELECTED))));
      }
    case ConfirmCurrent =>
      if st.segs != [] {
        SelectionTiles(st.segs, Last(st.segs).selectedIndex, |st.compInput|);
        var selected := st.(segs := WithLast(st.segs, Last(st.segs).(status := SELECTED)));
        if Confirmable(st.segs) {
          OnSelectOpens(e, selected);
        }
      }
    case ConfirmPrevious =>
  }

  lemma ReopenedSegmentOpens(e: Engine, st: State)
    requires WellBehaved(e) && Inv(st) && Open(st.segs)
    ensures Open(ReopenPreviousSegment(e, st).segs)
  {
    hide WellBehaved, Tiles, GoodMenus, Open, Trim, Compose;
    TrimTiles(st.segs, |st.compInput|);
    var t := Trim(st.segs);
    if t != [] && Last(t).status >= SELECTED {
      StatusTiles(t, |t| - 1, VOID, |st.compInput|);
      ComposeOpens(e, st.(segs := WithStatus(t, |t| - 1, VOID)));
    } else {
      ComposeOpens(e, st.(segs := t));
    }
  }

  lemma ReopenedSelectionOpens(e: Engine, st: State)
    requires WellBehaved(e) && Inv(st) && Open(st.segs)
    ensures Open(ReopenPreviousSelection(e, st).segs)
  {
    hide WellBehaved, Tiles, GoodMenus, Open, Compose;
    var i := FindSelected(st.segs);
    if i >= 0 {
      PrefixTiles(st.segs, i + 1, |st.compInput|);
      StatusTiles(st.segs[..i + 1], i, VOID, |st.compInput|);
      ComposeOpens(e, st.(segs := WithStatus(st.segs[..i + 1], i, VOID)));
    }
  }

  lemma ClearingOpens(st: State)
    requires Inv(st)
    ensures Open(ClearNonConfirmed(st).segs) || ClearNonConfirmed(st) == st
  {
    hide Open;
    ForwardOpens(Confirmed(st.segs));
  }

  /** Every operation leaves the last segment open. */
  lemma StepKeepsOpen(e: Engine, st: State, op: Op)
    requires WellBehaved(e) && Inv(st) && Open(st.segs)
    ensures Open(Step(e, st, op).segs)
  {
    assert Sound(st);
    hide WellBehaved, Inv, Sound, Tiles, GoodMenus, Open, Compose, Select, ConfirmCurrentSelection;
    hide ConfirmPreviousSelection, ReopenPreviousSegment, ReopenPreviousSelection, ClearNonConfirmed, SetCaret;
    hide SetInput, Commit, Clear, PushInput, PopInput, DeleteInput;
    match op
    case Push(_) => EditsOpen(e, st, op);
    case Pop(_) => EditsOpen(e, st, op);
    case Delete(_) => EditsOpen(e, st, op);
    case ClearAll => ClearOpens(e, st);
    case SelectAt(_) => SelectionsOpen(e, st, op);
    case ConfirmCurrent => SelectionsOpen(e, st, op);
    case ConfirmPrevious => SelectionsOpen(e, st, op);
    case DeleteCurrent =>
    case ReopenSegment => ReopenedSegmentOpens(e, st);
    case ReopenSelection => ReopenedSelectionOpens(e, st);
    case ClearSegment => ClearSegmentOpens(e, st);
    case ClearUnconfirmed => ClearingOpens(st);
    case RefreshUnconfirmed => RefreshingOpens(e, st);
    case MoveCaret(pos) => SetCaretOpens(e, st, pos);
    case Replace(value) => SetInputOpens(e, st, value);
    case Switch(name, on) => SwitchingOpens(e, st, name, on);
    case CommitAll => CommitOpens(e, st);
  }

  lemma ClearSegmentOpens(e: Engine, st: State)
    requires WellBehaved(e) && Inv(st) && Open(st.segs)
    ensures Open(ClearPreviousSegment(e, st).segs)
  {
    hide WellBehaved, Tiles, GoodMenus, Open, SetInput;
    if st.segs != [] && Last(st.segs).start < |st.input| {
      SetInputOpens(e, st, st.input[..Last(st.segs).start]);
    }
  }

  lemma RefreshingOpens(e: Engine, st: State)
    requires WellBehaved(e) && Inv(st) && Open(st.segs)
    ensures Open(RefreshNonConfirmed(e, st).segs)
  {
    hide WellBehaved, Tiles, GoodMenus, Open, ClearNonConfirmed, Compose;
    ComposeOpens(e, ClearNonConfirmed(st));
  }

  lemma SwitchingOpens(e: Engine, st: State, name: string, on: bool)
    requires WellBehaved(e) && Inv(st) && Open(st.segs)
    ensures Open(SetOption(e, st, name, on).segs)
  {
    hide WellBehaved, Tiles, GoodMenus, Open, RefreshNonConfirmed;
    RefreshingOpens(e, st.(options := st.options[name := on]));
  }

  lemma {:induction false} RunKeepsOpen(e: Engine, ops: seq<Op>, st: State)
    requires WellBehaved(e) && Reaches(e, ops, st)
    ensures Open(st.segs)
    decreases |ops|
  {
    hide Step, WellBehaved, Inv;
    if ops != [] {
      var last := |ops| - 1;
      var before :| Reaches(e, ops[..last], before) && Inv(before) && st == Step(e, before, ops[last]);
      RunKeepsOpen(e, ops[..last], before);
      hide Open;
      StepKeepsOpen(e, before, ops[last]);
    }
  }

  /** In every run, whatever the input becomes next, a selected segment with text that ends before the change stays as
      it is when the input is composed. */
  lemma SelectedSurvives(e: Engine, ops: seq<Op>, st: State, newInput: string, i: nat)
    requires WellBehaved(e) && Reaches(e, ops, st)
    requires i < |st.segs| && st.segs[i].status >= SELECTED && !st.segs[i].Empty()
    requires st.segs[i].end <= CommonPrefix(st.compInput, newInput)
    ensures Tiles(st.segs, |st.compInput|) && GoodMenus(st.segs)
    ensures i < |Composed(e, st.compInput, st.segs, newInput)|
    ensures Composed(e, st.compInput, st.segs, newInput)[i] == st.segs[i]
  {
    RunKeepsInv(e, ops, st);
    RunKeepsOpen(e, ops, st);
    hide WellBehaved, Reaches, Tiles, GoodMenus, Open;
    SelectedStays(e, st.compInput, st.segs, newInput, i);
  }

  /** No operation is ever refused: every run can be continued. */
  lemma RunGoesOn(e: Engine, ops: seq<Op>, st: State, op: Op)
    requires WellBehaved(e) && Reaches(e, ops, st)
    ensures Inv(st)
    ensures Reaches(e, ops + [op], Step(e, st, op))
  {
    RunKeepsInv(e, ops, st);
    assert (ops + [op])[..|ops|] == ops;
  }

  /** In every run, committing a composition without candidates hands over exactly the input before the caret. */
  lemma RawRunCommitsActiveInput(e: Engine, ops: seq<Op>, st: State)
    requires WellBehaved(e) && Reaches(e, ops, st)
    requires AllRaw(st.segs) && st.input != "" && !st.Option("dumb")
    ensures st.caret <= |st.input|
    ensures Commit(e, st).committed == st.committed + [st.input[..st.caret]] && Commit(e, st).input == ""
  {
    RunKeepsInv(e, ops, st);
    RawCommitsInput(st.compInput, st.segs);
  }

  /** A confirmation that is refused leaves everything as it was just when there is no segment, or the last one has been
      selected already. */
  lemma RefusalChangesNothingExactly(e: Engine, st: State)
    requires WellBehaved(e) && Inv(st) && !Confirmable(st.segs)
    ensures ConfirmCurrentSelection(e, st) == st <==> st.segs == [] || Last(st.segs).status == SELECTED
  {
    hide WellBehaved, Tiles, GoodMenus, OnSelect;
    if st.segs != [] {
      var r := WithLast(st.segs, Last(st.segs).(status := SELECTED));
      assert Last(r).status == SELECTED;
      assert Last(st.segs).status == SELECTED ==> r == st.segs;
    }
  }

  /** Deleting as many characters as have just been typed restores the input and the caret. */
  lemma PopUndoesPush(e: Engine, st: State, s: string)
    requires WellBehaved(e) && Inv(st)
    ensures var r := PopInput(e, PushInput(e, st, s), |s|); r.input == st.input && r.caret == st.caret
  {
    var pushed := st.input[..st.caret] + s + st.input[st.caret..];
    assert pushed[..st.caret] == st.input[..st.caret] && pushed[st.caret + |s|..] == st.input[st.caret..];
    assert st.input[..st.caret] + st.input[st.caret..] == st.input;
  }

  /** Confirming a segment that is already selected does not change the text. */
  lemma ConfirmingKeepsText(st: State)
    requires Inv(st)
    ensures CommitText(st.compInput, ConfirmPreviousSelection(st).segs) == CommitText(st.compInput, st.segs)
  {
    var i := FindSelected(st.segs);
    if i >= 0 {
      StatusKeepsText(st.compInput, st.segs, i, CONFIRMED);
    }
  }

  lemma {:induction false} StatusKeepsText(input: string, segs: Segments, i: nat, status: Status)
    requires i < |segs|
    ensures Converted(input, WithStatus(segs, i, status)) == Converted(input, segs)
    ensures CommitText(input, WithStatus(segs, i, status)) == CommitText(input, segs)
  {
    var r := WithStatus(segs, i, status);
    if i == |segs| - 1 {
      assert Init(r) == Init(segs);
    } else {
      StatusKeepsText(input, Init(segs), i, status);
      assert Init(r) == WithStatus(Init(segs), i, status);
    }
  }

  /** Selecting a candidate that takes the composition to the end of the input commits its text, after that of the
      segments before it. */
  lemma SelectionIsCommitted(e: Engine, st: State, index: nat)
    requires WellBehaved(e) && Inv(st) && st.segs != [] && Last(st.segs).CandidateAt(index).Some?
    requires st.Option("auto_commit") && !st.Option("dumb") && st.input != ""
    requires Last(st.segs).CandidateAt(index).value.end >= Last(st.segs).end == |st.input|
    ensures Select(e, st, index).committed
         == st.committed + [Joined(st.compInput, Init(st.segs)) + Last(st.segs).CandidateAt(index).value.text]
    ensures Select(e, st, index).input == ""
  {
    hide WellBehaved, Tiles, GoodMenus, Converted, Joined;
    ConvertedExactly(st.compInput, Init(st.segs));
    var c := Last(st.segs).CandidateAt(index).value;
    var chosen := Last(st.segs).(selectedIndex := index, status := CONFIRMED);
    SelectedText(st.compInput, st.segs, chosen, c);
    SelectionTiles(st.segs, index, |st.compInput|);
    var selected := st.(segs := WithLast(st.segs, Last(st.segs).(selectedIndex := index, status := SELECTED)));
    assert Last(selected.segs).SelectedCandidate() == Some(c) && Shortened(Last(selected.segs)) == Last(selected.segs);
    assert WithLast(selected.segs, Last(selected.segs).(status := CONFIRMED)) == WithLast(st.segs, chosen);
  }

  lemma SelectedText(input: string, segs: Segments, chosen: Segment, c: Candidate)
    requires segs != [] && chosen.SelectedCandidate() == Some(c) && c.end >= |input|
    ensures CommitText(input, WithLast(segs, chosen)) == Converted(input, Init(segs)).0 + c.text
  {
    assert Init(WithLast(segs, chosen)) == Init(segs) && Last(WithLast(segs, chosen)) == chosen;
  }

  // ---------- the context, updated in place ----------

  class Context {
    const engine: Engine
    const composition: Segmentation
    var input: string
    var caretPos: nat
    var options: map<string, bool>
    var committed: seq<string>

    constructor (e: Engine)
      ensures engine == e && Now() == INITIAL && fresh(composition)
    {
      engine := e;
      composition := new Segmentation();
      input, caretPos, options, committed := "", 0, map[], [];
    }

    ghost function Now(): State
      reads this, composition
    {
      State(input, caretPos, composition.input, composition.segments, options, committed)
    }

    ghost predicate Valid()
      reads this, composition
    {
      WellBehaved(engine) && Inv(Now())
    }

    /** The engine composes whenever the context has been updated. */
    method Update()
      requires WellBehaved(engine) && Sound(Now())
      modifies composition
      ensures Now() == Compose(engine, old(Now())) && Valid()
    {
      hide WellBehaved, Tiles, GoodMenus;
      var active := input[..caretPos];
      ResetTiles(composition.input, composition.segments, active);
      composition.ResetInput(active);
      CalculateSegmentation(engine, composition);
      TranslateSegments(engine, composition);
    }

    predicate GetOption(name: string)
      reads this
    {
      name in options && options[name]
    }

    method DoPushInput(s: string) returns (ok: bool)
      requires Valid()
      modifies this, composition
      ensures Valid() && ok && Now() == PushInput(engine, old(Now()), s)
    {
      if caretPos >= |input| {
        assert input == input[..caretPos] && input[caretPos..] == "";
        assert input + s == input[..caretPos] + s + input[caretPos..];
        input := input + s;
        caretPos := |input|;
      } else {
        input := input[..caretPos] + s + input[caretPos..];
        caretPos := caretPos + |s|;
      }
      Update();
      return true;
    }

    method DoPopInput(len: nat) returns (ok: bool)
      requires Valid()
      modifies this, composition
      ensures Valid() && (ok <==> len <= old(caretPos)) && Now() == PopInput(engine, old(Now()), len)
    {
      if caretPos < len {
        return false;
      }
      caretPos := caretPos - len;
      input := input[..caretPos] + input[caretPos + len..];
      Update();
      return true;
    }

    method DoDeleteInput(len: nat) returns (ok: bool)
      requires Valid()
      modifies this, composition
      ensures Valid() && (ok <==> old(caretPos) + len <= |old(input)|) && Now() == DeleteInput(engine, old(Now()), len)
    {
      if caretPos + len > |input| {
        return false;
      }
      input := input[..caretPos] + input[caretPos + len..];
      Update();
      return true;
    }

    method DoClear()
      requires WellBehaved(engine)
      modifies this, composition
      ensures Valid() && Now() == Clear(engine, old(Now()))
    {
      input := "";
      caretPos := 0;
      composition.segments := [];
      Update();
    }

    method DoCommit() returns (ok: bool)
      requires WellBehaved(engine)
      modifies this, composition
      ensures (ok <==> old(input) != "") && Now() == Commit(engine, old(Now()))
      ensures old(Valid()) ==> Valid()
    {
      if input == "" {
        return false;
      }
      var text := "";
      if !GetOption("dumb") {
        text := GetCommitText(composition);
      }
      committed := committed + [text];
      DoClear();
      return true;
    }

    method DoSetCaret(pos: nat)
      requires WellBehaved(engine) && Sound(Now())
      modifies this, composition
      ensures Valid() && Now() == SetCaret(engine, old(Now()), pos)
    {
      if pos > |input| {
        caretPos := |input|;
      } else {
        caretPos := pos;
      }
      Update();
    }

    method DoSetInput(value: string)
      requires WellBehaved(engine) && Sound(Now())
      modifies this, composition
      ensures Valid() && Now() == SetInput(engine, old(Now()), value)
    {
      input := value;
      caretPos := |input|;
      Update();
    }

    /** What the engine does when a candidate has been selected. */
    method Selected()
      requires Valid() && composition.segments != []
      modifies this, composition
      ensures Valid() && Now() == OnSelect(engine, old(Now()))
    {
      hide WellBehaved, Tiles, GoodMenus;
      var last := |composition.segments| - 1;
      ShortenedTiles(composition.segments, |composition.input|);
      var seg := composition.segments[last];
      var cand := seg.SelectedCandidate();
      if cand.Some? && cand.value.end < seg.end {
        // the candidate is shorter than its segment: what follows it is segmented anew
        seg := seg.(end := cand.value.end);
      }
      composition.segments := composition.segments[last := seg];
      assert composition.segments == WithLast(old(composition.segments), seg);
      if seg.end == |input| {
        // the candidate reaches the end of the input
        StatusTiles(composition.segments, last, CONFIRMED, |composition.input|);
        composition.segments := composition.segments[last := seg.(status := CONFIRMED)];
        assert composition.segments == WithLast(old(composition.segments), seg.(status := CONFIRMED));
        if GetOption("auto_commit") {
          var _ := DoCommit();
        } else {
          ForwardTiles(composition.segments, |composition.input|);
          var _ := composition.Advance();
        }
      } else {
        ForwardTiles(composition.segments, |composition.input|);
        var _ := composition.Advance();
        if seg.end >= caretPos {
          // nothing is left to convert before the caret
          DoSetCaret(|input|);
        } else {
          Update();
        }
      }
    }

    method DoSelect(index: nat) returns (ok: bool)
      requires Valid()
      modifies this, composition
      ensures Valid() && Now() == Select(engine, old(Now()), index)
      ensures ok <==> old(composition.segments) != [] && Last(old(composition.segments)).CandidateAt(index).Some?
    {
      hide WellBehaved, Tiles, GoodMenus, OnSelect;
      if composition.segments == [] {
        return false;
      }
      var last := |composition.segments| - 1;
      var seg := composition.segments[last];
      if seg.CandidateAt(index).None? {
        return false;
      }
      SelectionTiles(composition.segments, index, |composition.input|);
      composition.segments := composition.segments[last := seg.(selectedIndex := index, status := SELECTED)];
      assert composition.segments
          == WithLast(old(composition.segments), seg.(selectedIndex := index, status := SELECTED));
      Selected();
      return true;
    }

    /** Nothing is removed from the menu here: the answer only says that somebody may do so. */
    method DoDeleteCurrentSelection() returns (ok: bool)
      ensures ok <==> composition.segments != [] && Last(composition.segments).SelectedCandidate().Some?
    {
      return composition.segments != [] && Last(composition.segments).SelectedCandidate().Some?;
    }

    /** The last segment is marked as selected even when the confirmation is refused. */
    method DoConfirmCurrentSelection() returns (ok: bool)
      requires Valid()
      modifies this, composition
      ensures Valid() && Now() == ConfirmCurrentSelection(engine, old(Now()))
      ensures ok <==> Confirmable(old(composition.segments))
    {
      hide WellBehaved, Tiles, GoodMenus, OnSelect;
      if composition.segments == [] {
        return false;
      }
      var last := |composition.segments| - 1;
      var seg := composition.segments[last];
      SelectionTiles(composition.segments, seg.selectedIndex, |composition.input|);
      composition.segments := composition.segments[last := seg.(status := SELECTED)];
      assert composition.segments == WithLast(old(composition.segments), seg.(status := SELECTED));
      if seg.SelectedCandidate().None? && seg.Empty() {
        return false;
      }
      Selected();
      return true;
    }

    method LastSelected() returns (i: int)
      ensures i == FindSelected(composition.segments)
    {
      var segs := composition.segments;
      i := |segs| - 1;
      assert segs[..|segs|] == segs;
      while i >= 0
        invariant -1 <= i < |segs| && FindSelected(segs[..i + 1]) == FindSelected(segs)
      {
        assert Init(segs[..i + 1]) == segs[..i] && Last(segs[..i + 1]) == segs[i];
        if segs[i].status > SELECTED {
          return -1;
        }
        if segs[i].status == SELECTED {
          return;
        }
        i := i - 1;
      }
    }

    method DoConfirmPreviousSelection() returns (ok: bool)
      requires Valid()
      modifies composition
      ensures Valid() && Now() == ConfirmPreviousSelection(old(Now()))
      ensures ok <==> FindSelected(old(composition.segments)) >= 0
    {
      hide WellBehaved, Tiles, GoodMenus;
      var i := LastSelected();
      if i < 0 {
        return false;
      }
      StatusTiles(composition.segments, i, CONFIRMED, |composition.input|);
      composition.segments := composition.segments[i := composition.segments[i].(status := CONFIRMED)];
      return true;
    }

    method DoReopenPreviousSegment() returns (ok: bool)
      requires Valid()
      modifies composition
      ensures Valid() && Now() == ReopenPreviousSegment(engine, old(Now()))
      ensures ok <==> old(composition.segments) != [] && Last(old(composition.segments)).Empty()
    {
      hide WellBehaved, Tiles, GoodMenus;
      TrimTiles(composition.segments, |composition.input|);
      ok := composition.RemoveTrailing();
      if ok {
        var last := |composition.segments| - 1;
        if last >= 0 && composition.segments[last].status >= SELECTED {
          StatusTiles(composition.segments, last, VOID, |composition.input|);
          composition.segments := composition.segments[last := composition.segments[last].(status := VOID)];
        }
        Update();
      }
    }

    method DoClearPreviousSegment() returns (ok: bool)
      requires Valid()
      modifies this, composition
      ensures Valid() && Now() == ClearPreviousSegment(engine, old(Now()))
      ensures ok <==> old(composition.segments) != [] && Last(old(composition.segments)).start < |old(input)|
    {
      hide WellBehaved, Tiles, GoodMenus;
      if composition.segments == [] {
        return false;
      }
      var where := Last(composition.segments).start;
      if where >= |input| {
        return false;
      }
      DoSetInput(input[..where]);
      return true;
    }

    method KeepFirst(n: nat)
      requires n <= |composition.segments|
      modifies composition`segments
      ensures composition.segments == old(composition.segments)[..n]
    {
      while |composition.segments| > n
        invariant |composition.segments| >= n && composition.segments[..n] == old(composition.segments)[..n]
      {
        composition.segments := Init(composition.segments);
      }
      assert composition.segments == composition.segments[..n];
    }

    method DoReopenPreviousSelection() returns (ok: bool)
      requires Valid()
      modifies composition
      ensures Valid() && Now() == ReopenPreviousSelection(engine, old(Now()))
      ensures ok <==> FindSelected(old(composition.segments)) >= 0
    {
      hide WellBehaved, Tiles, GoodMenus;
      var i := LastSelected();
      if i < 0 {
        return false;
      }
      PrefixTiles(composition.segments, i + 1, |composition.input|);
      StatusTiles(composition.segments[..i + 1], i, VOID, |composition.input|);
      composition.segments := composition.segments[i := composition.segments[i].(status := VOID)];
      KeepFirst(i + 1);
      assert composition.segments == WithStatus(old(composition.segments)[..i + 1], i, VOID);
      Update();
      return true;
    }

    method DoClearNonConfirmedComposition() returns (reverted: bool)
      requires Valid()
      modifies composition
      ensures Valid() && Now() == ClearNonConfirmed(old(Now()))
      ensures reverted <==> |Confirmed(old(composition.segments))| < |old(composition.segments)|
    {
      hide WellBehaved, Tiles, GoodMenus;
      ghost var kept := Confirmed(composition.segments);
      PrefixTiles(composition.segments, |kept|, |composition.input|);
      ForwardTiles(composition.segments[..|kept|], |composition.input|);
      assert kept == composition.segments[..|kept|];
      reverted := false;
      while composition.segments != [] && Last(composition.segments).status < SELECTED
        invariant Confirmed(composition.segments) == kept && composition.input == old(composition.input)
        invariant |composition.segments| <= |old(composition.segments)|
        invariant if reverted then |composition.segments| < |old(composition.segments)|
                  else composition.segments == old(composition.segments)
        decreases |composition.segments|
      {
        composition.segments := Init(composition.segments);
        reverted := true;
      }
      if reverted {
        var _ := composition.Advance();
      }
    }

    method DoRefreshNonConfirmedComposition() returns (ok: bool)
      requires Valid()
      modifies composition
      ensures Valid() && Now() == RefreshNonConfirmed(engine, old(Now()))
      ensures ok <==> |Confirmed(old(composition.segments))| < |old(composition.segments)|
    {
      hide WellBehaved, Tiles, GoodMenus;
      ok := DoClearNonConfirmedComposition();
      if ok {
        Update();
      }
    }

    method DoSetOption(name: string, value: bool)
      requires Valid()
      modifies this, composition
      ensures Valid() && Now() == SetOption(engine, old(Now()), name, value)
    {
      hide WellBehaved, Tiles, GoodMenus;
      options := options[name := value];
      if input != "" {
        var _ := DoRefreshNonConfirmedComposition();
      }
    }
  }
}
