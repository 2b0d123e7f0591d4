/** The operations of a context, stated on the characters of the input, the caret and the single segments. */
module Editings {
  import opened Spellings
  import opened Segmentations
  import opened Engines
  import opened Compositions
  import opened Contexts

  // ---------- editing the input ----------

  /** Only the input, the caret and the composition differ. */
  ghost predicate OnlyText(st: State, r: State) {
    r.options == st.options && r.committed == st.committed
  }

  /** Composing is about the input before the caret, and changes nothing but the composition. */
  lemma ComposesBeforeCaret(e: Engine, st: State)
    requires WellBehaved(e) && Sound(st)
    ensures var active := st.input[..st.caret];
            Compose(e, st) == st.(compInput := active, segs := Composed(e, st.compInput, st.segs, active))
  {
  }

  /** What is typed stands before the caret afterwards, between what was before and what was after it. */
  lemma PushExactly(e: Engine, st: State, s: string)
    requires WellBehaved(e) && Inv(st)
    ensures var r := PushInput(e, st, s);
      && OnlyText(st, r) && r.caret == st.caret + |s| <= |r.input|
      && r.input[..st.caret] == st.input[..st.caret] && r.input[st.caret..r.caret] == s
      && r.input[r.caret..] == st.input[st.caret..]
  {
    hide WellBehaved, Tiles, GoodMenus, Composed;
    var input := st.input[..st.caret] + s + st.input[st.caret..];
    assert input[..st.caret] == st.input[..st.caret] && input[st.caret..st.caret + |s|] == s;
    assert input[st.caret + |s|..] == st.input[st.caret..];
  }

  /** As many characters before the caret are gone, if there are as many. */
  lemma PopExactly(e: Engine, st: State, len: nat)
    requires WellBehaved(e) && Inv(st)
    ensures len > st.caret ==> PopInput(e, st, len) == st
    ensures len <= st.caret ==>
      var r := PopInput(e, st, len);
      && OnlyText(st, r) && r.caret == st.caret - len <= |r.input|
      && r.input[..r.caret] == st.input[..st.caret - len] && r.input[r.caret..] == st.input[st.caret..]
  {
    hide WellBehaved, Tiles, GoodMenus, Composed;
  }

  /** As many characters after the caret are gone, if there are as many. */
  lemma DeleteExactly(e: Engine, st: State, len: nat)
    requires WellBehaved(e) && Inv(st)
    ensures st.caret + len > |st.input| ==> DeleteInput(e, st, len) == st
    ensures st.caret + len <= |st.input| ==>
      var r := DeleteInput(e, st, len);
      && OnlyText(st, r) && r.caret == st.caret <= |r.input|
      && r.input[..st.caret] == st.input[..st.caret] && r.input[st.caret..] == st.input[st.caret + len..]
  {
    hide WellBehaved, Tiles, GoodMenus, Composed;
  }

  /** Deleting forwards is moving the caret over what goes and deleting backwards. */
  lemma DeleteIsPop(e: Engine, st: State, len: nat)
    requires WellBehaved(e) && Inv(st) && st.caret + len <= |st.input|
    ensures var r, p := DeleteInput(e, st, len), PopInput(e, SetCaret(e, st, st.caret + len), len);
            r.input == p.input && r.caret == p.caret == st.caret
  {
    hide WellBehaved, Tiles, GoodMenus, Composed;
  }

  lemma CaretExactly(e: Engine, st: State, pos: nat)
    requires WellBehaved(e) && Inv(st)
    ensures var r := SetCaret(e, st, pos);
      && OnlyText(st, r) && r.input == st.input && r.caret <= |st.input| && r.caret <= pos
      && (r.caret == pos || r.caret == |st.input|)
  {
    hide WellBehaved, Tiles, GoodMenus, Composed;
  }

  lemma ReplaceExactly(e: Engine, st: State, value: string)
    requires WellBehaved(e) && Inv(st)
    ensures var r := SetInput(e, st, value); OnlyText(st, r) && r.input == value && r.caret == |value|
    ensures var r := Clear(e, st); OnlyText(st, r) && r.input == "" && r.caret == 0
  {
    hide WellBehaved, Tiles, GoodMenus, Composed;
  }

  predicate IsOn(st: State, name: string) {
    name in st.options && st.options[name]
  }

  /** A commit hands over the pieces of the segments and what is left of the composed input, or nothing in dumb mode,
      and empties the input; without input it does nothing. */
  lemma CommitExactly(e: Engine, st: State)
    requires WellBehaved(e)
    ensures st.input == "" ==> Commit(e, st) == st
    ensures st.input != "" ==>
      var r := Commit(e, st);
      var end := if st.segs == [] then 0 else GoesOnAt(st.segs[|st.segs| - 1]);
      var rest := if end < |st.compInput| then st.compInput[end..] else "";
      && r.input == "" && r.caret == 0 && r.options == st.options
      && r.committed == st.committed + [if IsOn(st, "dumb") then "" else Joined(st.compInput, st.segs) + rest]
  {
    hide WellBehaved, Composed, Converted, Joined;
    CommitTextExactly(st.compInput, st.segs);
  }

  // ---------- selecting ----------

  /** The end of the segment, or that of its candidate if it is shorter. */
  function EndChosen(seg: Segment): nat {
    if seg.menu.Some? && seg.selectedIndex < |seg.menu.value| && seg.menu.value[seg.selectedIndex].end < seg.end then
      seg.menu.value[seg.selectedIndex].end
    else seg.end
  }

  /** The last segment ends where its candidate does. At the end of the input it is confirmed, and committed if that is
      asked for. Before that, a fresh segment follows, and the rest is composed: up to the end of the input if the
      segment reaches the caret. */
  lemma SelectedExactly(e: Engine, st: State)
    requires WellBehaved(e) && Inv(st) && st.segs != []
    ensures var n := |st.segs|;
            var seg, r := st.segs[n - 1].(end := EndChosen(st.segs[n - 1])), OnSelect(e, st);
            var confirmed := st.(segs := st.segs[..n - 1] + [seg.(status := CONFIRMED)]);
            var x := st.(segs := Forward(st.segs[..n - 1] + [seg]),
                         caret := if seg.end >= st.caret then |st.input| else st.caret);
      && (seg.end == |st.input| && IsOn(st, "auto_commit") ==> r == Commit(e, confirmed))
      && (seg.end == |st.input| && !IsOn(st, "auto_commit") ==> r == confirmed.(segs := Forward(confirmed.segs)))
      && (seg.end != |st.input| ==> Sound(x) && r == Compose(e, x))
  {
    hide WellBehaved, Tiles, GoodMenus, Forward, Commit, Compose;
    ShortenedTiles(st.segs, |st.compInput|);
    ForwardTiles(WithLast(st.segs, Shortened(Last(st.segs))), |st.compInput|);
  }

  /** A candidate that is there is selected in the last segment; otherwise nothing happens. */
  lemma SelectExactly(e: Engine, st: State, index: nat)
    requires WellBehaved(e) && Inv(st)
    ensures st.segs == [] ==> Select(e, st, index) == st
    ensures st.segs != [] ==>
      var n, last := |st.segs|, st.segs[|st.segs| - 1];
      var x := st.(segs := st.segs[..n - 1] + [last.(selectedIndex := index, status := SELECTED)]);
      if last.menu.Some? && index < |last.menu.value| then Inv(x) && Select(e, st, index) == OnSelect(e, x)
      else Select(e, st, index) == st
  {
    hide WellBehaved, Tiles, GoodMenus, OnSelect;
    if st.segs != [] {
      SelectionTiles(st.segs, index, |st.compInput|);
    }
  }

  /** The last segment becomes selected, with the candidate it has. If it has one, or text, the engine goes on from
      there. */
  lemma ConfirmExactly(e: Engine, st: State)
    requires WellBehaved(e) && Inv(st)
    ensures st.segs == [] ==> ConfirmCurrentSelection(e, st) == st
    ensures st.segs != [] ==>
      var n, last := |st.segs|, st.segs[|st.segs| - 1];
      var x := st.(segs := st.segs[..n - 1] + [last.(status := SELECTED)]);
      Inv(x) && ConfirmCurrentSelection(e, st)
        == if (last.menu.Some? && last.selectedIndex < |last.menu.value|) || last.start != last.end then OnSelect(e, x)
           else x
  {
    hide WellBehaved, Tiles, GoodMenus, OnSelect;
    if st.segs != [] {
      SelectionTiles(st.segs, Last(st.segs).selectedIndex, |st.compInput|);
    }
  }

  // ---------- going back ----------

  /** The `i`th segment is selected, no more than that, and nothing after it is. */
  predicate LastSelected(segs: Segments, i: nat) {
    i < |segs| && segs[i].status == SELECTED && forall j :: i < j < |segs| ==> segs[j].status < SELECTED
  }

  lemma {:induction false} FindSelectedExactly(segs: Segments)
    ensures FindSelected(segs) >= 0 ==> LastSelected(segs, FindSelected(segs))
    ensures FindSelected(segs) < 0 ==> forall i: nat :: !LastSelected(segs, i)
  {
    if segs != [] && Last(segs).status < SELECTED {
      FindSelectedExactly(Init(segs));
      forall i: nat | LastSelected(segs, i)
        ensures LastSelected(Init(segs), i)
      {
      }
    }
  }

  /** That segment is confirmed, and nothing else changes. */
  lemma ConfirmPreviousExactly(st: State)
    requires Inv(st)
    ensures forall i: nat :: LastSelected(st.segs, i) ==>
      ConfirmPreviousSelection(st) == st.(segs := st.segs[i := st.segs[i].(status := CONFIRMED)])
    ensures (forall i: nat :: !LastSelected(st.segs, i)) ==> ConfirmPreviousSelection(st) == st
  {
    hide Tiles, GoodMenus, FindSelected;
    FindSelectedExactly(st.segs);
    forall i: nat | LastSelected(st.segs, i)
      ensures FindSelected(st.segs) == i
    {
    }
  }

  /** The segments after that one are dropped, it is void again, and the rest is composed. */
  lemma ReopenSelectionExactly(e: Engine, st: State)
    requires WellBehaved(e) && Inv(st)
    ensures forall i: nat :: LastSelected(st.segs, i) ==>
      var x := st.(segs := st.segs[..i] + [st.segs[i].(status := VOID)]);
      Sound(x) && ReopenPreviousSelection(e, st) == Compose(e, x)
    ensures (forall i: nat :: !LastSelected(st.segs, i)) ==> ReopenPreviousSelection(e, st) == st
  {
    hide WellBehaved, Tiles, GoodMenus, FindSelected, Compose;
    FindSelectedExactly(st.segs);
    forall i: nat | LastSelected(st.segs, i)
      ensures FindSelected(st.segs) == i
      ensures st.segs[..i] + [st.segs[i].(status := VOID)] == WithStatus(st.segs[..i + 1], i, VOID)
    {
    }
    var i := FindSelected(st.segs);
    if i >= 0 {
      PrefixTiles(st.segs, i + 1, |st.compInput|);
      StatusTiles(st.segs[..i + 1], i, VOID, |st.compInput|);
    }
  }

  /** An empty last segment is dropped, the one before it is void again if it was selected, and the rest is composed; if
      the last segment is not empty nothing happens. */
  lemma ReopenSegmentExactly(e: Engine, st: State)
    requires WellBehaved(e) && Inv(st)
    ensures st.segs == [] || st.segs[|st.segs| - 1].start != st.segs[|st.segs| - 1].end ==>
      ReopenPreviousSegment(e, st) == st
    ensures st.segs != [] && st.segs[|st.segs| - 1].start == st.segs[|st.segs| - 1].end ==>
      var n := |st.segs|;
      var x := if n > 1 && st.segs[n - 2].status >= SELECTED
               then st.(segs := st.segs[..n - 2] + [st.segs[n - 2].(status := VOID)])
               else st.(segs := st.segs[..n - 1]);
      Sound(x) && ReopenPreviousSegment(e, st) == Compose(e, x)
  {
    hide WellBehaved, Tiles, GoodMenus, Compose;
    TrimTiles(st.segs, |st.compInput|);
    var t := Trim(st.segs);
    if t != st.segs && t != [] && Last(t).status >= SELECTED {
      StatusTiles(t, |t| - 1, VOID, |st.compInput|);
      assert WithStatus(t, |t| - 1, VOID) == t[..|t| - 1] + [t[|t| - 1].(status := VOID)];
      assert t[..|t| - 1] == st.segs[..|st.segs| - 2];
    }
  }

  /** The input is cut off at the start of the last segment, unless that is the end of the input. */
  lemma ClearSegmentExactly(e: Engine, st: State)
    requires WellBehaved(e) && Inv(st)
    ensures var r := ClearPreviousSegment(e, st);
            if st.segs == [] || st.segs[|st.segs| - 1].start >= |st.input| then r == st
            else r.input == st.input[..st.segs[|st.segs| - 1].start] && r.caret == |r.input| && OnlyText(st, r)
  {
    hide WellBehaved, Tiles, GoodMenus, Composed;
  }

  /** `k` segments are left if those after them are not selected and the last of them is. */
  predicate ConfirmedUpTo(segs: Segments, k: nat) {
    && k <= |segs| && (k > 0 ==> segs[k - 1].status >= SELECTED)
    && forall j :: k <= j < |segs| ==> segs[j].status < SELECTED
  }

  lemma {:induction false} ConfirmedExactly(segs: Segments)
    ensures ConfirmedUpTo(segs, |Confirmed(segs)|) && Confirmed(segs) == segs[..|Confirmed(segs)|]
    ensures forall k: nat :: ConfirmedUpTo(segs, k) ==> k == |Confirmed(segs)|
  {
    if segs != [] && Last(segs).status < SELECTED {
      ConfirmedExactly(Init(segs));
      forall k: nat | ConfirmedUpTo(segs, k)
        ensures ConfirmedUpTo(Init(segs), k)
      {
      }
    }
  }

  /** The segments after the last selected one are dropped and a fresh one follows; with no such segments nothing
      happens. To refresh is to compose then. */
  lemma ClearUnconfirmedExactly(e: Engine, st: State, k: nat)
    requires WellBehaved(e) && Inv(st) && ConfirmedUpTo(st.segs, k)
    ensures k == |st.segs| ==> ClearNonConfirmed(st) == st && RefreshNonConfirmed(e, st) == st
    ensures k < |st.segs| ==>
      var x := st.(segs := Forward(st.segs[..k]));
      Sound(x) && ClearNonConfirmed(st) == x && RefreshNonConfirmed(e, st) == Compose(e, x)
  {
    hide WellBehaved, Tiles, GoodMenus, Confirmed, Compose, Forward;
    ConfirmedExactly(st.segs);
    PrefixTiles(st.segs, k, |st.compInput|);
    ForwardTiles(st.segs[..k], |st.compInput|);
  }

  /** Only that option is set, and what is not confirmed is composed again if there is input. */
  lemma SwitchExactly(e: Engine, st: State, name: string, on: bool)
    requires WellBehaved(e) && Inv(st)
    ensures var x, r := st.(options := st.options[name := on]), SetOption(e, st, name, on);
      && IsOn(r, name) == on && (forall other :: other != name ==> IsOn(r, other) == IsOn(st, other))
      && r == if st.input == "" then x else RefreshNonConfirmed(e, x)
  {
    hide WellBehaved, Tiles, GoodMenus, Confirmed, Composed, Forward;
  }
}
