/** The segments of a composition, and the rules that keep them tiling the input. */
module Segmentations {
  import opened Spellings

  type Status = s: int | 0 <= s <= 3 witness 0
  const VOID: Status := 0
  const GUESS: Status := 1
  const SELECTED: Status := 2
  const CONFIRMED: Status := 3

  datatype Candidate = Candidate(start: nat, end: nat, text: string, preedit: string)

  datatype Segment = Segment(status: Status, start: nat, end: nat, tags: set<string>,
                             menu: Option<seq<Candidate>>, selectedIndex: nat, prompt: string) {

    function CandidateAt(index: nat): Option<Candidate> {
      if menu.Some? && index < |menu.value| then Some(menu.value[index]) else None
    }

    function SelectedCandidate(): Option<Candidate> {
      CandidateAt(selectedIndex)
    }

    predicate Empty() {
      start == end
    }
  }

  function NewSegment(start: nat, end: nat): Segment {
    Segment(VOID, start, end, {}, None, 0, "")
  }

  type Segments = seq<Segment>

  function Last(segs: Segments): Segment
    requires segs != []
  {
    segs[|segs| - 1]
  }

  function Init(segs: Segments): Segments
    requires segs != []
  {
    segs[..|segs| - 1]
  }

  function CurrentStart(segs: Segments): nat {
    if segs == [] then 0 else Last(segs).start
  }

  function CurrentEnd(segs: Segments): nat {
    if segs == [] then 0 else Last(segs).end
  }

  /** The characters from `start` to `end`. */
  function Slice(s: string, start: nat, end: nat): string {
    if start <= end <= |s| then s[start..end] else ""
  }

  // ---------- tiling ----------

  /** The segments follow each other from 0 on, within the first `n` characters, and only the last may be empty. */
  ghost predicate Tiles(segs: Segments, n: nat)
    decreases |segs|
  {
    segs == []
    || (Last(segs).start == CurrentEnd(Init(segs)) && Last(segs).start <= Last(segs).end <= n
        && (Init(segs) != [] ==> !Last(Init(segs)).Empty()) && Tiles(Init(segs), n))
  }

  /** The candidates of a segment end after its start. */
  ghost predicate GoodMenu(seg: Segment) {
    seg.menu.Some? ==> forall c :: c in seg.menu.value ==> c.end > seg.start
  }

  ghost predicate GoodMenus(segs: Segments) {
    forall i :: 0 <= i < |segs| ==> GoodMenu(segs[i])
  }

  // ---------- the operations ----------

  /** Starts an empty segment after the last one, unless that is empty. */
  function Forward(segs: Segments): Segments {
    if segs == [] || Last(segs).Empty() then segs else segs + [NewSegment(Last(segs).end, Last(segs).end)]
  }

  /** Removes an empty last segment. */
  function Trim(segs: Segments): Segments {
    if segs != [] && Last(segs).Empty() then Init(segs) else segs
  }

  /** Adds a segment that is aligned with the current one: the longer one wins, equals merge their tags. */
  function Add(segs: Segments, seg: Segment): Segments {
    if seg.start != CurrentStart(segs) then segs
    else if segs == [] then [seg]
    else if Last(segs).end > seg.end then segs
    else if Last(segs).end < seg.end then Init(segs) + [seg]
    else Init(segs) + [Last(segs).(tags := Last(segs).tags + seg.tags)]
  }

  function CommonPrefix(a: string, b: string): (n: nat)
    ensures n <= |a| && n <= |b| && a[..n] == b[..n]
    ensures n < |a| && n < |b| ==> a[n] != b[n]
  {
    if a == "" || b == "" || a[0] != b[0] then 0
    else
      var n := CommonPrefix(a[1..], b[1..]);
      assert a[..n + 1] == [a[0]] + a[1..][..n] && b[..n + 1] == [b[0]] + b[1..][..n];
      n + 1
  }

  /** The segments that end by `n`: the others have been popped from the back. */
  function Within(segs: Segments, n: nat): Segments {
    if segs != [] && Last(segs).end > n then Within(Init(segs), n) else segs
  }

  /** Drops the segments that the new input has changed. */
  function Reset(input: string, segs: Segments, newInput: string): Segments {
    var kept := Within(segs, CommonPrefix(input, newInput));
    if |kept| < |segs| then Forward(kept) else kept
  }

  // ---------- what they keep ----------

  lemma TilesPush(segs: Segments, seg: Segment, n: nat)
    requires Tiles(segs, n) && (segs != [] ==> !Last(segs).Empty())
    requires seg.start == CurrentEnd(segs) && seg.start <= seg.end <= n
    ensures Tiles(segs + [seg], n)
  {
    assert Init(segs + [seg]) == segs && Last(segs + [seg]) == seg;
  }

  lemma {:induction false} TilesWithin(segs: Segments, n: nat, m: nat)
    requires Tiles(segs, n) && CurrentEnd(segs) <= m
    ensures Tiles(segs, m)
  {
    if segs != [] { TilesWithin(Init(segs), n, m); }
  }

  lemma ForwardTiles(segs: Segments, n: nat)
    requires Tiles(segs, n)
    ensures Tiles(Forward(segs), n) && CurrentEnd(Forward(segs)) == CurrentEnd(segs)
    ensures GoodMenus(segs) ==> GoodMenus(Forward(segs))
  {
    if segs != [] && !Last(segs).Empty() {
      TilesPush(segs, NewSegment(Last(segs).end, Last(segs).end), n);
    }
  }

  lemma TrimTiles(segs: Segments, n: nat)
    requires Tiles(segs, n)
    ensures Tiles(Trim(segs), n) && (Trim(segs) != [] ==> !Last(Trim(segs)).Empty())
    ensures CurrentEnd(Trim(segs)) == CurrentEnd(segs)
    ensures GoodMenus(segs) ==> GoodMenus(Trim(segs))
  {
  }

  lemma AddTiles(segs: Segments, seg: Segment, n: nat)
    requires Tiles(segs, n) && seg.start <= seg.end <= n
    ensures Tiles(Add(segs, seg), n) && CurrentStart(Add(segs, seg)) == CurrentStart(segs)
    ensures CurrentEnd(Add(segs, seg)) >= CurrentEnd(segs)
    ensures GoodMenus(segs) && GoodMenu(seg) ==> GoodMenus(Add(segs, seg))
  {
    if seg.start == CurrentStart(segs) {
      if segs == [] {
        TilesPush([], seg, n);
        assert [] + [seg] == [seg];
      } else if Last(segs).end <= seg.end {
        var last := if Last(segs).end < seg.end then seg else Last(segs).(tags := Last(segs).tags + seg.tags);
        TilesPush(Init(segs), last, n);
      }
    }
  }

  lemma {:induction false} WithinTiles(segs: Segments, n: nat, m: nat)
    requires Tiles(segs, n)
    ensures Tiles(Within(segs, m), m) && Within(segs, m) <= segs
    ensures GoodMenus(segs) ==> GoodMenus(Within(segs, m))
  {
    if segs != [] && Last(segs).end > m {
      WithinTiles(Init(segs), n, m);
    } else {
      TilesWithin(segs, n, m);
    }
  }

  /** Exactly the segments that end by `m` are kept. */
  lemma {:induction false} WithinExactly(segs: Segments, n: nat, m: nat, i: nat)
    requires Tiles(segs, n) && i < |segs|
    ensures i < |Within(segs, m)| <==> segs[i].end <= m
    ensures i < |Within(segs, m)| ==> Within(segs, m)[i] == segs[i]
  {
    if Last(segs).end > m {
      if i < |segs| - 1 {
        WithinExactly(Init(segs), n, m, i);
      } else {
        WithinTiles(Init(segs), n, m);
      }
    } else {
      EndsAscend(segs, n, i);
    }
  }

  lemma {:induction false} EndsAscend(segs: Segments, n: nat, i: nat)
    requires Tiles(segs, n) && i < |segs|
    ensures segs[i].start <= segs[i].end <= CurrentEnd(segs) <= n
  {
    if i < |segs| - 1 {
      EndsAscend(Init(segs), n, i);
    }
  }

  lemma ResetTiles(input: string, segs: Segments, newInput: string)
    requires Tiles(segs, |input|)
    ensures Tiles(Reset(input, segs, newInput), |newInput|)
    ensures GoodMenus(segs) ==> GoodMenus(Reset(input, segs, newInput))
  {
    var n := CommonPrefix(input, newInput);
    WithinTiles(segs, |input|, n);
    TilesWithin(Within(segs, n), n, |newInput|);
    ForwardTiles(Within(segs, n), |newInput|);
  }

  /** A reset keeps exactly the segments that end within the common prefix, and so their text. */
  lemma ResetKeeps(input: string, segs: Segments, newInput: string, i: nat)
    requires Tiles(segs, |input|) && i < |segs|
    ensures segs[i].end <= CommonPrefix(input, newInput)
      ==> i < |Reset(input, segs, newInput)| && Reset(input, segs, newInput)[i] == segs[i]
          && Slice(newInput, segs[i].start, segs[i].end) == Slice(input, segs[i].start, segs[i].end)
    ensures segs[i].end > CommonPrefix(input, newInput)
      ==> i >= |Reset(input, segs, newInput)|
          || (i == |Reset(input, segs, newInput)| - 1 && Reset(input, segs, newInput)[i].Empty())
  {
    var n := CommonPrefix(input, newInput);
    WithinExactly(segs, |input|, n, i);
    WithinTiles(segs, |input|, n);
    EndsAscend(segs, |input|, i);
    if segs[i].end <= n {
      assert input[segs[i].start..segs[i].end] == input[..n][segs[i].start..segs[i].end];
    }
  }

  // ---------- the operations, case by case ----------

  /** A segment that has nothing in it yet. */
  predicate Fresh(seg: Segment, at: nat) {
    seg.status == 0 && seg.start == at && seg.end == at && seg.tags == {} && seg.menu == None && seg.selectedIndex == 0
    && seg.prompt == ""
  }

  lemma ForwardExactly(segs: Segments)
    ensures segs == [] || segs[|segs| - 1].start == segs[|segs| - 1].end ==> Forward(segs) == segs
    ensures segs != [] && segs[|segs| - 1].start != segs[|segs| - 1].end ==>
      |Forward(segs)| == |segs| + 1 && Forward(segs)[..|segs|] == segs
      && Fresh(Forward(segs)[|segs|], segs[|segs| - 1].end)
  {
  }

  lemma TrimExactly(segs: Segments)
    ensures segs != [] && segs[|segs| - 1].start == segs[|segs| - 1].end ==> Trim(segs) == segs[..|segs| - 1]
    ensures segs == [] || segs[|segs| - 1].start != segs[|segs| - 1].end ==> Trim(segs) == segs
  {
  }

  /** Only the last segment can change, and only by a segment with the same start: to that segment if it ends later, and
      to itself with more tags if it ends in the same place. */
  lemma AddExactly(segs: Segments, seg: Segment)
    ensures segs == [] ==> Add(segs, seg) == if seg.start == 0 then [seg] else []
    ensures segs != [] ==> |Add(segs, seg)| == |segs|
    ensures forall i :: 0 <= i < |segs| - 1 ==> Add(segs, seg)[i] == segs[i]
    ensures segs != [] ==>
      var last, r := segs[|segs| - 1], Add(segs, seg)[|segs| - 1];
      && (seg.start != last.start || seg.end < last.end ==> r == last)
      && (seg.start == last.start && seg.end > last.end ==> r == seg)
      && (seg.start == last.start && seg.end == last.end ==>
            r == last.(tags := r.tags) && forall t :: t in r.tags <==> t in last.tags || t in seg.tags)
  {
  }

  /** What a reset leaves: the segments before the first one that ends beyond the common prefix, and a fresh one behind
      them if any were dropped and the last of those that are left is not empty. */
  lemma ResetExactly(input: string, segs: Segments, newInput: string)
    requires Tiles(segs, |input|)
    ensures exists k: nat ::
      && k <= |segs|
      && (forall i :: 0 <= i < |segs| ==> (i < k <==> segs[i].end <= CommonPrefix(input, newInput)))
      && (k == |segs| || k == 0 || segs[k - 1].Empty() ==> Reset(input, segs, newInput) == segs[..k])
      && (0 < k < |segs| && !segs[k - 1].Empty() ==>
            |Reset(input, segs, newInput)| == k + 1 && Reset(input, segs, newInput)[..k] == segs[..k]
            && Fresh(Reset(input, segs, newInput)[k], segs[k - 1].end))
  {
    var n := CommonPrefix(input, newInput);
    var kept := Within(segs, n);
    WithinTiles(segs, |input|, n);
    forall i | 0 <= i < |segs|
      ensures i < |kept| <==> segs[i].end <= n
    {
      WithinExactly(segs, |input|, n, i);
    }
    ForwardExactly(kept);
    hide Within, Forward, Tiles, CommonPrefix;
    assert kept == segs[..|kept|];
  }

  // ---------- the segment list, updated in place ----------

  class Segmentation {
    var segments: Segments
    var input: string

    constructor ()
      ensures segments == [] && input == ""
    {
      segments, input := [], "";
    }

    /** Marks redo segmentation, while keeping the segments that have not changed. */
    method ResetInput(newInput: string)
      modifies this
      ensures segments == Reset(old(input), old(segments), newInput) && input == newInput
    {
      var diffPos := 0;
      while diffPos < |input| && diffPos < |newInput| && input[diffPos] == newInput[diffPos]
        invariant diffPos <= |input| && diffPos <= |newInput| && input == old(input) && segments == old(segments)
        invariant diffPos + CommonPrefix(input[diffPos..], newInput[diffPos..]) == CommonPrefix(input, newInput)
      {
        diffPos := diffPos + 1;
      }
      var disposed := 0;
      while segments != [] && Last(segments).end > diffPos
        invariant |segments| + disposed == |old(segments)|
        invariant Within(segments, diffPos) == Within(old(segments), diffPos)
        decreases |segments|
      {
        segments := Init(segments);
        disposed := disposed + 1;
      }
      if disposed > 0 {
        var _ := Advance();
      }
      input := newInput;
    }

    method AddSegment(segment: Segment) returns (ok: bool)
      modifies this`segments
      ensures segments == Add(old(segments), segment)
      ensures ok <==> segment.start == CurrentStart(old(segments))
    {
      if segment.start != CurrentStart(segments) {
        return false;
      }
      if segments == [] {
        segments := segments + [segment];
        return true;
      }
      var last := Last(segments);
      if last.end > segment.end {
        // the new segment is the shorter one
      } else if last.end < segment.end {
        segments := segments[|segments| - 1 := segment];
      } else {
        segments := segments[|segments| - 1 := last.(tags := last.tags + segment.tags)];
      }
      return true;
    }

    /** Finalizes a round: initializes an empty segment for the next one. */
    method Advance() returns (ok: bool)
      modifies this`segments
      ensures segments == Forward(old(segments)) && (ok <==> segments != old(segments))
    {
      if segments == [] || Last(segments).Empty() {
        return false;
      }
      segments := segments + [NewSegment(Last(segments).end, Last(segments).end)];
      return true;
    }

    /** Removes an empty trailing segment. */
    method RemoveTrailing() returns (ok: bool)
      modifies this`segments
      ensures segments == Trim(old(segments)) && (ok <==> old(segments) != [] && Last(old(segments)).Empty())
    {
      if segments != [] && Last(segments).Empty() {
        segments := Init(segments);
        return true;
      }
      return false;
    }

    predicate HasFinished()
      reads this
    {
      CurrentEnd(segments) >= |input|
    }

    method GetConfirmedPosition() returns (k: nat)
      ensures k == ConfirmedPosition(segments)
    {
      k := 0;
      for n := 0 to |segments|
        invariant k == ConfirmedPosition(segments[..n])
      {
        assert segments[..n + 1][..n] == segments[..n];
        if segments[n].status >= SELECTED {
          k := segments[n].end;
        }
      }
      assert segments[..|segments|] == segments;
    }
  }

  function ConfirmedPosition(segs: Segments): nat {
    if segs == [] then 0 else if Last(segs).status >= SELECTED then Last(segs).end else ConfirmedPosition(Init(segs))
  }

  /** Every selected segment ends by the confirmed position, and one ends there unless there is none. */
  lemma {:induction false} ConfirmedIsGreatest(segs: Segments, n: nat)
    requires Tiles(segs, n)
    ensures forall i :: 0 <= i < |segs| && segs[i].status >= SELECTED ==> segs[i].end <= ConfirmedPosition(segs)
    ensures ConfirmedPosition(segs) == 0
      || exists i :: 0 <= i < |segs| && segs[i].status >= SELECTED && segs[i].end == ConfirmedPosition(segs)
  {
    if segs != [] {
      ConfirmedIsGreatest(Init(segs), n);
      forall i | 0 <= i < |segs|
        ensures segs[i].end <= Last(segs).end
      {
        EndsAscend(segs, n, i);
      }
    }
  }
}
