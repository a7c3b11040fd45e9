/**
  The lines on screen (crates/doc/src/lines/screen_lines.rs): the visual lines in the viewport,
  top to bottom, each tied to the folded line and the origin (buffer) lines it shows. The
  lookups here are searches over that list.
*/
module Screen {
  import opened Wrappers

  /** A rectangle in window coordinates. */
  datatype Rect = Rect(x0: real, y0: real, x1: real, y1: real)

  /** A half-open range of buffer offsets. */
  datatype Interval = Interval(start: nat, end: nat)

  /** The part of a folded line this model reads: its index among folded lines, the first
      origin line it shows and the buffer offsets it covers. */
  datatype OriginFoldedLine = OriginFoldedLine(lineIndex: nat, originLineStart: nat, originInterval: Interval)

  datatype VisualLineInfo = VisualLineInfo(foldedLineY: real, base: Rect, visualLine: OriginFoldedLine)

  datatype DiffSectionKind = NoCode | Added | Removed

  datatype DiffSection = DiffSection(yIdx: nat, height: nat, kind: DiffSectionKind)

  /** The entries go down the buffer: origin line starts never decrease. */
  predicate OriginSorted(vls: seq<VisualLineInfo>)
  {
    forall i, j :: 0 <= i < j < |vls| ==> vls[i].visualLine.originLineStart <= vls[j].visualLine.originLineStart
  }

  /** The entries show consecutive folded lines, one each. */
  predicate Consecutive(vls: seq<VisualLineInfo>)
  {
    forall i :: 0 <= i < |vls| ==> vls[i].visualLine.lineIndex == vls[0].visualLine.lineIndex + i
  }

  /** Entry `i` is the first entry that starts at `originLine`: every entry before it starts
      above that line. */
  predicate FirstAt(vls: seq<VisualLineInfo>, originLine: nat, i: int)
  {
    0 <= i < |vls| && vls[i].visualLine.originLineStart == originLine &&
    forall j :: 0 <= j < i ==> vls[j].visualLine.originLineStart < originLine
  }

  /** Past a head entry that starts above `originLine`, the first entry starting at it is found
      one place further down. */
  lemma FirstAtTail(vls: seq<VisualLineInfo>, originLine: nat)
    requires vls != [] && vls[0].visualLine.originLineStart < originLine
    ensures forall i :: FirstAt(vls[1..], originLine, i) ==> FirstAt(vls, originLine, i + 1)
    ensures forall i :: FirstAt(vls, originLine, i) ==> 1 <= i && FirstAt(vls[1..], originLine, i - 1)
  {
    assert forall i :: 0 <= i < |vls[1..]| ==> vls[1..][i] == vls[i + 1];
  }

  /** `visual_line_info_for_origin_line`: the first entry starting at `originLine`; the search
      gives up at the first entry that starts below it. */
  function InfoForOriginLine(vls: seq<VisualLineInfo>, originLine: nat): (r: Option<VisualLineInfo>)
    ensures r.Some? ==> r.value in vls && r.value.visualLine.originLineStart == originLine
    ensures r.Some? <==> exists i :: FirstAt(vls, originLine, i)
    ensures forall i :: FirstAt(vls, originLine, i) ==> r == Some(vls[i])
  {
    if vls == [] then None
    else if originLine < vls[0].visualLine.originLineStart then None
    else if originLine == vls[0].visualLine.originLineStart then
      assert FirstAt(vls, originLine, 0);
      Some(vls[0])
    else
      FirstAtTail(vls, originLine);
      InfoForOriginLine(vls[1..], originLine)
  }

  /** On a list that goes down the buffer, giving up early loses nothing: an origin line is found
      exactly when some entry starts at it. */
  lemma {:induction false} InfoForOriginLineSorted(vls: seq<VisualLineInfo>, originLine: nat)
    requires OriginSorted(vls)
    ensures InfoForOriginLine(vls, originLine).Some? <==>
      exists i :: 0 <= i < |vls| && vls[i].visualLine.originLineStart == originLine
  {
    if i :| 0 <= i < |vls| && vls[i].visualLine.originLineStart == originLine {
      var k := FirstStartingAt(vls, originLine, i);
      assert FirstAt(vls, originLine, k);
    }
  }

  /** The first entry that starts at `originLine`, given that entry `i` does. */
  lemma {:induction false} FirstStartingAt(vls: seq<VisualLineInfo>, originLine: nat, i: nat) returns (k: nat)
    requires OriginSorted(vls)
    requires i < |vls| && vls[i].visualLine.originLineStart == originLine
    ensures k <= i && vls[k].visualLine.originLineStart == originLine
    ensures forall j :: 0 <= j < k ==> vls[j].visualLine.originLineStart < originLine
    decreases i
  {
    if i > 0 && vls[i - 1].visualLine.originLineStart == originLine {
      k := FirstStartingAt(vls, originLine, i - 1);
    } else {
      k := i;
      forall j | 0 <= j < i
        ensures vls[j].visualLine.originLineStart < originLine
      {
        assert vls[j].visualLine.originLineStart <= vls[i - 1].visualLine.originLineStart;
      }
    }
  }

  /** Entry `i` is the first entry that shows folded line `lineIndex`. */
  predicate FirstShowing(vls: seq<VisualLineInfo>, lineIndex: nat, i: int)
  {
    0 <= i < |vls| && vls[i].visualLine.lineIndex == lineIndex &&
    forall j :: 0 <= j < i ==> vls[j].visualLine.lineIndex != lineIndex
  }

  /** Past a head entry showing another folded line, the first entry showing `lineIndex` is
      found one place further down. */
  lemma FirstShowingTail(vls: seq<VisualLineInfo>, lineIndex: nat)
    requires vls != [] && vls[0].visualLine.lineIndex != lineIndex
    ensures forall i :: FirstShowing(vls[1..], lineIndex, i) ==> FirstShowing(vls, lineIndex, i + 1)
    ensures forall i :: FirstShowing(vls, lineIndex, i) ==> 1 <= i && FirstShowing(vls[1..], lineIndex, i - 1)
  {
    assert forall i :: 0 <= i < |vls[1..]| ==> vls[1..][i] == vls[i + 1];
  }

  /** `visual_line_info_for_origin_folded_line`: the first entry showing folded line `lineIndex`. */
  function InfoForFoldedLine(vls: seq<VisualLineInfo>, lineIndex: nat): (r: Option<VisualLineInfo>)
    ensures r.Some? <==> exists i :: 0 <= i < |vls| && vls[i].visualLine.lineIndex == lineIndex
    ensures r.Some? ==> r.value in vls && r.value.visualLine.lineIndex == lineIndex
    ensures forall i :: FirstShowing(vls, lineIndex, i) ==> r == Some(vls[i])
  {
    if vls == [] then None
    else if lineIndex == vls[0].visualLine.lineIndex then Some(vls[0])
    else
      assert forall i :: 0 <= i < |vls[1..]| ==> vls[1..][i] == vls[i + 1];
      FirstShowingTail(vls, lineIndex);
      InfoForFoldedLine(vls[1..], lineIndex)
  }

  function Max(a: nat, b: nat): nat { if a < b then b else a }

  function Min(a: nat, b: nat): nat { if a < b then a else b }

  /** The viewport's folded lines from `startLineIndex` to `endLineIndex`, clamped to the first
      and last lines on screen. */
  function Intersection(vls: seq<VisualLineInfo>, startLineIndex: nat, endLineIndex: nat): (r: Option<(VisualLineInfo, VisualLineInfo)>)
    ensures vls == [] ==> r.None?
    ensures vls != [] && Max(vls[0].visualLine.lineIndex, startLineIndex) > Min(vls[|vls| - 1].visualLine.lineIndex, endLineIndex) ==> r.None?
    ensures r.Some? ==> vls != [] && r.value.0 in vls && r.value.1 in vls
    ensures r.Some? ==> r.value.0.visualLine.lineIndex == Max(vls[0].visualLine.lineIndex, startLineIndex)
    ensures r.Some? ==> r.value.1.visualLine.lineIndex == Min(vls[|vls| - 1].visualLine.lineIndex, endLineIndex)
    ensures r.Some? ==> r.value.0.visualLine.lineIndex <= r.value.1.visualLine.lineIndex
  {
    if vls == [] then None
    else
      var first, last := vls[0], vls[|vls| - 1];
      var s := Max(first.visualLine.lineIndex, startLineIndex);
      var e := Min(last.visualLine.lineIndex, endLineIndex);
      if s > e then None
      else match (InfoForFoldedLine(vls, s), InfoForFoldedLine(vls, e))
        case (Some(a), Some(b)) => Some((a, b))
        case _ => None
  }

  /** When the screen shows consecutive folded lines, a request that overlaps them always gets
      both ends. */
  lemma IntersectionConsecutive(vls: seq<VisualLineInfo>, startLineIndex: nat, endLineIndex: nat)
    requires vls != [] && Consecutive(vls)
    requires Max(vls[0].visualLine.lineIndex, startLineIndex) <= Min(vls[|vls| - 1].visualLine.lineIndex, endLineIndex)
    ensures Intersection(vls, startLineIndex, endLineIndex).Some?
  {
    var base := vls[0].visualLine.lineIndex;
    var s := Max(base, startLineIndex);
    var e := Min(vls[|vls| - 1].visualLine.lineIndex, endLineIndex);
    assert vls[s - base].visualLine.lineIndex == s;
    assert vls[e - base].visualLine.lineIndex == e;
  }

  /** What is on screen: the visual lines, the diff sections, and the viewport. */
  class ScreenLines {
    var visualLines: seq<VisualLineInfo>
    var diffSections: Option<seq<DiffSection>>
    var base: Rect
    var lineHeight: real

    /** `ScreenLines::new`: nothing on screen yet. */
    constructor (viewport: Rect, lineHeight: real)
      ensures visualLines == [] && diffSections == None && base == viewport && this.lineHeight == lineHeight
    {
      visualLines := [];
      diffSections := None;
      base := viewport;
      this.lineHeight := lineHeight;
    }

    /** `is_empty`. */
    function IsEmpty(): (r: bool)
      reads this
      ensures r <==> |visualLines| == 0
    {
      visualLines == []
    }

    /** `clear`: only the viewport changes. */
    method Clear(viewport: Rect)
      modifies this`base
      ensures base == viewport
      ensures visualLines == old(visualLines) && diffSections == old(diffSections) && lineHeight == old(lineHeight)
    {
      base := viewport;
    }

    /** `line_interval`: the origin lines the first and the last entry start at. */
    function LineInterval(): (r: Result<(nat, nat), string>)
      reads this
      ensures r.Err? <==> visualLines == []
      ensures r.Ok? ==> r.value == (visualLines[0].visualLine.originLineStart,
                                    visualLines[|visualLines| - 1].visualLine.originLineStart)
    {
      if visualLines == [] then Err("ScreenLines is empty?")
      else Ok((visualLines[0].visualLine.originLineStart, visualLines[|visualLines| - 1].visualLine.originLineStart))
    }

    /** `offset_interval`: from the first entry's start offset to the last entry's end offset. */
    function OffsetInterval(): (r: Result<(nat, nat), string>)
      reads this
      ensures r.Err? <==> visualLines == []
      ensures r.Ok? ==> r.value == (visualLines[0].visualLine.originInterval.start,
                                    visualLines[|visualLines| - 1].visualLine.originInterval.end)
    {
      if visualLines == [] then Err("ScreenLines is empty?")
      else Ok((visualLines[0].visualLine.originInterval.start, visualLines[|visualLines| - 1].visualLine.originInterval.end))
    }

    /** On a screen that goes down the buffer, the line interval spans every entry. */
    lemma LineIntervalSpans()
      requires OriginSorted(visualLines)
      ensures LineInterval().Ok? ==>
        forall i :: 0 <= i < |visualLines| ==>
          LineInterval().value.0 <= visualLines[i].visualLine.originLineStart <= LineInterval().value.1
    {
    }

    /** `visual_line_info_for_origin_line`: the first entry on screen starting at `originLine`,
        or None when an entry starting below it comes first or none starts at it. */
    function VisualLineInfoForOriginLine(originLine: nat): (r: Option<VisualLineInfo>)
      reads this
      ensures r.Some? <==> exists i :: FirstAt(visualLines, originLine, i)
      ensures forall i :: FirstAt(visualLines, originLine, i) ==> r == Some(visualLines[i])
    {
      InfoForOriginLine(visualLines, originLine)
    }

    /** `visual_line_info_for_origin_folded_line`: the first entry on screen showing folded line
        `lineIndex`, or None when no entry shows it. */
    function VisualLineInfoForOriginFoldedLine(lineIndex: nat): (r: Option<VisualLineInfo>)
      reads this
      ensures r.Some? <==> exists i :: 0 <= i < |visualLines| && visualLines[i].visualLine.lineIndex == lineIndex
      ensures forall i :: FirstShowing(visualLines, lineIndex, i) ==> r == Some(visualLines[i])
    {
      InfoForFoldedLine(visualLines, lineIndex)
    }

    /** `intersection_with_lines`. */
    function IntersectionWithLines(startLineIndex: nat, endLineIndex: nat): (r: Option<(VisualLineInfo, VisualLineInfo)>)
      reads this
      ensures r.Some? ==> r.value.0.visualLine.lineIndex <= r.value.1.visualLine.lineIndex
      ensures r.Some? ==> startLineIndex <= r.value.0.visualLine.lineIndex && r.value.1.visualLine.lineIndex <= endLineIndex
    {
      Intersection(visualLines, startLineIndex, endLineIndex)
    }
  }
}
