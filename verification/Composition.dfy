/** The texts that a composition stands for. */
module Compositions {
  import opened Spellings
  import opened Segmentations

  /** The part of the commit text that the segments give, and where the last of them ends. */
  function Converted(input: string, segs: Segments): (string, nat) {
    if segs == [] then ("", 0) else
      var before := Converted(input, Init(segs)).0;
      var seg := Last(segs);
      match seg.SelectedCandidate()
      case Some(cand) => (before + cand.text, cand.end)
      case None => (before + Slice(input, seg.start, seg.end), seg.end)
  }

  /** The selected candidates, the raw input of the other segments, and what is left of the input. */
  function CommitText(input: string, segs: Segments): string {
    var (text, end) := Converted(input, segs);
    if |input| > end then text + input[end..] else text
  }

  method GetCommitText(comp: Segmentation) returns (result: string)
    ensures result == CommitText(comp.input, comp.segments)
  {
    result := "";
    var end := 0;
    for i := 0 to |comp.segments|
      invariant (result, end) == Converted(comp.input, comp.segments[..i])
    {
      var seg := comp.segments[i];
      assert Init(comp.segments[..i + 1]) == comp.segments[..i];
      match seg.SelectedCandidate() {
        case Some(cand) =>
          end := cand.end;
          result := result + cand.text;
        case None =>
          end := seg.end;
          result := result + Slice(comp.input, seg.start, seg.end);
      }
    }
    assert comp.segments[..|comp.segments|] == comp.segments;
    if |comp.input| > end {
      result := result + comp.input[end..];
    }
  }

  // ---------- the text, piece by piece ----------

  /** What a segment contributes: its selected candidate, or its raw input. */
  function PieceOf(input: string, seg: Segment): string {
    if seg.menu.Some? && seg.selectedIndex < |seg.menu.value| then seg.menu.value[seg.selectedIndex].text
    else if seg.start <= seg.end <= |input| then input[seg.start..seg.end]
    else ""
  }

  /** Where the input goes on after a segment: at the end of its candidate, which may be before that of the segment. */
  function GoesOnAt(seg: Segment): nat {
    if seg.menu.Some? && seg.selectedIndex < |seg.menu.value| then seg.menu.value[seg.selectedIndex].end else seg.end
  }

  function Joined(input: string, segs: Segments): string {
    if segs == [] then "" else PieceOf(input, segs[0]) + Joined(input, segs[1..])
  }

  lemma {:induction false} JoinedNext(input: string, segs: Segments)
    requires segs != []
    ensures Joined(input, segs) == Joined(input, Init(segs)) + PieceOf(input, Last(segs))
    decreases |segs|
  {
    hide PieceOf;
    if |segs| > 1 {
      JoinedNext(input, segs[1..]);
      assert Init(segs)[1..] == Init(segs[1..]) && Last(segs[1..]) == Last(segs);
    } else {
      assert segs[1..] == [] && Init(segs) == [];
    }
  }

  lemma {:induction false} ConvertedExactly(input: string, segs: Segments)
    ensures Converted(input, segs) == (Joined(input, segs), if segs == [] then 0 else GoesOnAt(segs[|segs| - 1]))
  {
    if segs != [] {
      ConvertedExactly(input, Init(segs));
      JoinedNext(input, segs);
    }
  }

  /** The text is the pieces of the segments in their order, and what is left of the input after the last of them. */
  lemma CommitTextExactly(input: string, segs: Segments)
    ensures var end := if segs == [] then 0 else GoesOnAt(segs[|segs| - 1]);
            CommitText(input, segs) == Joined(input, segs) + if end < |input| then input[end..] else ""
  {
    ConvertedExactly(input, segs);
    hide Joined, GoesOnAt;
    assert Joined(input, segs) + "" == Joined(input, segs);
  }

  ghost predicate AllRaw(segs: Segments) {
    forall i :: 0 <= i < |segs| ==> segs[i].SelectedCandidate().None?
  }

  lemma {:induction false} RawConverts(input: string, segs: Segments)
    requires Tiles(segs, |input|) && AllRaw(segs)
    ensures Converted(input, segs) == (input[..CurrentEnd(segs)], CurrentEnd(segs))
  {
    if segs != [] {
      RawConverts(input, Init(segs));
      var last := Last(segs);
      assert input[..last.end] == input[..last.start] + input[last.start..last.end];
    }
  }

  /** A composition without any candidate commits exactly its input. */
  lemma RawCommitsInput(input: string, segs: Segments)
    requires Tiles(segs, |input|) && AllRaw(segs)
    ensures CommitText(input, segs) == input
  {
    RawConverts(input, segs);
    assert input == input[..CurrentEnd(segs)] + input[CurrentEnd(segs)..];
  }
}
