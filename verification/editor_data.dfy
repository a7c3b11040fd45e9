/**
  The line arithmetic and snippet bookkeeping of the editor (lapce-app/src/editor/mod.rs).

  In a diff view each pane shows one side of a `Left`/`Both`/`Right` segment list, with filler
  rows where the other side has more lines and with part of a `Both` block possibly folded into
  a single row (its `skip`). `visual_line` maps a buffer line of the pane to its row on screen,
  `actual_line` maps a row back to a buffer line. Both walk the list once, keeping a running
  count of rows.

  A snippet is a list of placeholders `(tab, (start, end))`; the cursor jumps between them and
  nested snippets are spliced in place of the placeholder the cursor is in.
*/
module EditorData {
  import opened Wrappers
  import opened Diff

  datatype EditorViewKind = Normal | DiffView(info: DiffInfo)

  function MinLen(a: nat, b: nat): nat
  {
    if a < b then a else b
  }

  /** `a.len() - b.len().min(a.len())`: how many lines `a` has beyond `b`. */
  function Excess(a: Range, b: Range): nat
  {
    a.Len() - MinLen(b.Len(), a.Len())
  }

  /** The segment the walk saw just before segment `i` (`last_change`). */
  function Prev(cs: seq<DiffLines>, i: nat): Option<DiffLines>
  {
    if 0 < i <= |cs| then Some(cs[i - 1]) else None
  }

  /** The segments that hold lines of the pane itself: `Right` on the right pane, `Left` on
      the left one. */
  predicate OwnSide(c: DiffLines, isRight: bool)
  {
    if isRight then c.Right? else c.Left?
  }

  /** The segments with a line range on this pane. */
  predicate HasSide(c: DiffLines, isRight: bool)
  {
    c.Both? || OwnSide(c, isRight)
  }

  function SideRange(c: DiffLines, isRight: bool): Range
    requires HasSide(c, isRight)
  {
    if c.Both? then (if isRight then c.both.right else c.both.left) else c.range
  }

  /** The rows a folded part of a `Both` block saves: all of it but the one row it shows. */
  function SkipLoss(skip: Option<Range>): nat
  {
    match skip
    case None => 0
    case Some(s) => if s.Len() > 0 then s.Len() - 1 else 0
  }

  /** On the left pane, the filler rows a `Right` segment adds: what it has beyond a `Left`
      just before it, or all of it. */
  function LeftPadding(cs: seq<DiffLines>, i: nat): nat
    requires i < |cs| && cs[i].Right?
  {
    match Prev(cs, i)
    case Some(Left(r)) => Excess(cs[i].range, r)
    case _ => cs[i].range.Len()
  }

  /** On the right pane, the filler rows after a `Right` segment: what the `Left` just before
      it has beyond it. */
  function RightPadding(cs: seq<DiffLines>, i: nat): nat
    requires i < |cs| && cs[i].Right?
  {
    match Prev(cs, i)
    case Some(Left(r)) => Excess(r, cs[i].range)
    case _ => 0
  }

  /** The rows segment `i` takes on the pane, counted when the walk passes it. A `Left` that a
      `Right` follows takes none on the right pane: the `Right` pads for it. */
  function Rows(cs: seq<DiffLines>, i: nat, isRight: bool): int
    requires i < |cs|
  {
    match cs[i]
    case Left(range) => if isRight && i + 1 < |cs| && cs[i + 1].Right? then 0 else range.Len()
    case Right(range) => if isRight then range.Len() + RightPadding(cs, i) else LeftPadding(cs, i)
    case Both(info) => info.right.Len() - SkipLoss(info.skip)
  }

  /** Whether `line` of the pane lies in segment `c` or before it, so the walk stops there. */
  predicate Holds(c: DiffLines, isRight: bool, line: nat)
  {
    HasSide(c, isRight) && line < SideRange(c, isRight).end
  }

  /** The row of `line` counted from the top of the segment that holds it. A folded part of a
      `Both` block shows as one row, and the lines after it move up. */
  function Landing(c: DiffLines, isRight: bool, line: nat): int
    requires HasSide(c, isRight)
  {
    var start := SideRange(c, isRight).start;
    if c.Both? && c.both.skip.Some? then
      var skip := c.both.skip.value;
      if start + skip.start > line then line - start
      else if start + skip.end > line then skip.start
      else line - start - skip.Len() + 1
    else line - start
  }

  /** The walk of `visual_line` from segment `i`, with `acc` rows counted so far. */
  function VisualLineFrom(cs: seq<DiffLines>, i: nat, isRight: bool, line: nat, acc: int): int
    requires i <= |cs|
    decreases |cs| - i
  {
    if i == |cs| then acc
    else if Holds(cs[i], isRight, line) then acc + Landing(cs[i], isRight, line)
    else VisualLineFrom(cs, i + 1, isRight, line, acc + Rows(cs, i, isRight))
  }

  /** `EditorData::visual_line`: the screen row of buffer line `line`. */
  method VisualLine(kind: EditorViewKind, line: nat) returns (r: int)
    ensures kind.Normal? ==> r == line
    ensures kind.DiffView? ==> r == VisualLineFrom(kind.info.changes, 0, kind.info.isRight, line, 0)
  {
    match kind {
      case Normal =>
        return line;
      case DiffView(diff) =>
        var isRight := diff.isRight;
        var cs := diff.changes;
        var lastChange: Option<DiffLines> := None;
        var visualLine: int := 0;
        var i := 0;
        while i < |cs|
          invariant i <= |cs| && lastChange == Prev(cs, i)
          invariant VisualLineFrom(cs, i, isRight, line, visualLine) == VisualLineFrom(cs, 0, isRight, line, 0)
        {
          var change := cs[i];
          if change.Both? {
            var info := change.both;
            var end := if isRight then info.right.end else info.left.end;
            if line < end {
              var start := if isRight then info.right.start else info.left.start;
              if info.skip.Some? {
                var skip := info.skip.value;
                if start + skip.start > line {
                  return visualLine + line - start;
                } else if start + skip.end > line {
                  return visualLine + skip.start;
                } else {
                  return visualLine + (line - start - skip.Len() + 1);
                }
              } else {
                return visualLine + line - start;
              }
            }
            visualLine := visualLine + info.right.Len() - SkipLoss(info.skip);
          } else if OwnSide(change, isRight) {
            var range := change.range;
            if line < range.end {
              return visualLine + line - range.start;
            }
            visualLine := visualLine + range.Len();
            if isRight && lastChange.Some? && lastChange.value.Left? {
              var r := lastChange.value.range;
              var len := r.Len() - MinLen(r.Len(), range.Len());
              if len > 0 {
                visualLine := visualLine + len;
              }
            }
          } else if change.Left? {
            if i + 1 < |cs| && cs[i + 1].Right? {
            } else {
              visualLine := visualLine + change.range.Len();
            }
          } else {
            var range := change.range;
            var len := if lastChange.Some? && lastChange.value.Left?
              then range.Len() - MinLen(lastChange.value.range.Len(), range.Len())
              else range.Len();
            if len > 0 {
              visualLine := visualLine + len;
            }
          }
          lastChange := Some(change);
          i := i + 1;
        }
        return visualLine;
    }
  }

  /** `usize::saturating_sub(1)`. */
  function SatSub1(x: int): int
  {
    if x >= 1 then x - 1 else 0
  }

  /** The walk of `actual_line` from segment `i`, having counted `cur` rows and `actual` lines
      of the pane. */
  function ActualLineFrom(cs: seq<DiffLines>, i: nat, isRight: bool, v: int, bottom: bool, cur: int, actual: int): int
    requires i <= |cs|
    decreases |cs| - i
  {
    if i == |cs| then actual
    else if OwnSide(cs[i], isRight) then
      var range := cs[i].range;
      var pad := if isRight then RightPadding(cs, i) else 0;
      if cur + range.Len() > v then range.start + (v - cur)
      else if pad > 0 && cur + range.Len() + pad > v then
        (if bottom then actual + range.Len() else actual)
      else ActualLineFrom(cs, i + 1, isRight, v, bottom, cur + range.Len() + pad, actual + range.Len())
    else match cs[i]
      case Left(range) =>
        if i + 1 < |cs| && cs[i + 1].Right? then ActualLineFrom(cs, i + 1, isRight, v, bottom, cur, actual)
        else if cur + range.Len() >= v then (if bottom then actual else SatSub1(actual))
        else ActualLineFrom(cs, i + 1, isRight, v, bottom, cur + range.Len(), actual)
      case Right(range) =>
        var pad := LeftPadding(cs, i);
        if pad > 0 && cur + pad >= v then actual
        else ActualLineFrom(cs, i + 1, isRight, v, bottom, cur + pad, actual)
      case Both(info) =>
        var len := info.right.Len();
        match info.skip
        case Some(skip) =>
          if cur + skip.start == v then (if bottom then actual + skip.end else SatSub1(actual + skip.start))
          else if cur + skip.start + 1 > v then actual + v - cur
          else if cur + len - skip.Len() + 1 >= v then actual + skip.end + (v - cur - skip.start - 1)
          else ActualLineFrom(cs, i + 1, isRight, v, bottom, cur + len - skip.Len() + 1, actual + len)
        case None =>
          if cur + len > v then SideRange(cs[i], isRight).start + (v - cur)
          else ActualLineFrom(cs, i + 1, isRight, v, bottom, cur + len, actual + len)
  }

  /** One turn of the loop of `actual_line`, at segment `i`: either the walk stops with the
      line `r`, or it passes the segment with `cur` rows and `actual` lines counted. */
  method ActualSegment(cs: seq<DiffLines>, i: nat, isRight: bool, visualLine: nat, bottomAffinity: bool,
                       lastChange: Option<DiffLines>, currentVisualLine: int, actualLine: int)
      returns (done: bool, r: int, cur: int, actual: int)
    requires i < |cs| && lastChange == Prev(cs, i)
    ensures done ==> r == ActualLineFrom(cs, i, isRight, visualLine, bottomAffinity, currentVisualLine, actualLine)
    ensures !done ==> (ActualLineFrom(cs, i + 1, isRight, visualLine, bottomAffinity, cur, actual)
                       == ActualLineFrom(cs, i, isRight, visualLine, bottomAffinity, currentVisualLine, actualLine))
  {
    var change := cs[i];
    if OwnSide(change, isRight) {
      done, r, cur, actual := OwnSegment(cs, i, isRight, visualLine, bottomAffinity, lastChange, currentVisualLine, actualLine);
    } else if change.Left? {
      done, r, cur, actual := false, 0, currentVisualLine, actualLine;
      if i + 1 < |cs| && cs[i + 1].Right? {
      } else {
        cur := cur + change.range.Len();
        if cur >= visualLine {
          return true, if bottomAffinity then actual else SatSub1(actual), cur, actual;
        }
      }
    } else if change.Right? {
      done, r, cur, actual := false, 0, currentVisualLine, actualLine;
      var range := change.range;
      var len := if lastChange.Some? && lastChange.value.Left?
        then range.Len() - MinLen(lastChange.value.range.Len(), range.Len())
        else range.Len();
      if len > 0 {
        cur := cur + len;
        if cur >= visualLine {
          return true, actual, cur, actual;
        }
      }
    } else {
      done, r, cur, actual := BothSegment(cs, i, isRight, visualLine, bottomAffinity, currentVisualLine, actualLine);
    }
  }

  /** The turn of `actual_line` at a segment of the pane's own side. */
  method OwnSegment(cs: seq<DiffLines>, i: nat, isRight: bool, visualLine: nat, bottomAffinity: bool,
                    lastChange: Option<DiffLines>, currentVisualLine: int, actualLine: int)
      returns (done: bool, r: int, cur: int, actual: int)
    requires i < |cs| && lastChange == Prev(cs, i) && OwnSide(cs[i], isRight)
    ensures done ==> r == ActualLineFrom(cs, i, isRight, visualLine, bottomAffinity, currentVisualLine, actualLine)
    ensures !done ==> (ActualLineFrom(cs, i + 1, isRight, visualLine, bottomAffinity, cur, actual)
                       == ActualLineFrom(cs, i, isRight, visualLine, bottomAffinity, currentVisualLine, actualLine))
  {
    done, r, cur, actual := false, 0, currentVisualLine, actualLine;
    var range := cs[i].range;
    var len := range.Len();
    if cur + len > visualLine {
      return true, range.start + (visualLine - cur), cur, actual;
    }
    cur := cur + len;
    actual := actual + len;
    if isRight && lastChange.Some? && lastChange.value.Left? {
      var l := lastChange.value.range;
      var pad := l.Len() - MinLen(l.Len(), range.Len());
      if pad > 0 {
        cur := cur + pad;
        if cur > visualLine {
          return true, if bottomAffinity then actual else actual - range.Len(), cur, actual;
        }
      }
    }
  }

  /** The turn of `actual_line` at a `Both` block. */
  method BothSegment(cs: seq<DiffLines>, i: nat, isRight: bool, visualLine: nat, bottomAffinity: bool,
                     currentVisualLine: int, actualLine: int)
      returns (done: bool, r: int, cur: int, actual: int)
    requires i < |cs| && cs[i].Both?
    ensures done ==> r == ActualLineFrom(cs, i, isRight, visualLine, bottomAffinity, currentVisualLine, actualLine)
    ensures !done ==> (ActualLineFrom(cs, i + 1, isRight, visualLine, bottomAffinity, cur, actual)
                       == ActualLineFrom(cs, i, isRight, visualLine, bottomAffinity, currentVisualLine, actualLine))
  {
    done, r, cur, actual := false, 0, currentVisualLine, actualLine;
    var info := cs[i].both;
    var len := info.right.Len();
    var start := if isRight then info.right.start else info.left.start;
    if info.skip.Some? {
      var skip := info.skip.value;
      if cur + skip.start == visualLine {
        return true, if bottomAffinity then actual + skip.end else SatSub1(actual + skip.start), cur, actual;
      } else if cur + skip.start + 1 > visualLine {
        return true, actual + visualLine - cur, cur, actual;
      } else if cur + len - skip.Len() + 1 >= visualLine {
        return true, actual + skip.end + (visualLine - cur - skip.start - 1), cur, actual;
      }
      actual := actual + len;
      cur := cur + len - skip.Len() + 1;
    } else {
      if cur + len > visualLine {
        return true, start + (visualLine - cur), cur, actual;
      }
      cur := cur + len;
      actual := actual + len;
    }
  }

  /** `EditorData::actual_line`: the buffer line shown at screen row `visualLine`; with
      `bottomAffinity` unset, a row of filler resolves to the line above it. */
  method ActualLine(kind: EditorViewKind, visualLine: nat, bottomAffinity: bool) returns (r: int)
    ensures kind.Normal? ==> r == visualLine
    ensures kind.DiffView? ==>
      r == ActualLineFrom(kind.info.changes, 0, kind.info.isRight, visualLine, bottomAffinity, 0, 0)
  {
    match kind {
      case Normal =>
        return visualLine;
      case DiffView(diff) =>
        var isRight := diff.isRight;
        var cs := diff.changes;
        var actualLine: int := 0;
        var currentVisualLine: int := 0;
        var lastChange: Option<DiffLines> := None;
        var i := 0;
        while i < |cs|
          invariant i <= |cs| && lastChange == Prev(cs, i)
          invariant ActualLineFrom(cs, i, isRight, visualLine, bottomAffinity, currentVisualLine, actualLine)
                 == ActualLineFrom(cs, 0, isRight, visualLine, bottomAffinity, 0, 0)
        {
          var done, found;
          done, found, currentVisualLine, actualLine :=
            ActualSegment(cs, i, isRight, visualLine, bottomAffinity, lastChange, currentVisualLine, actualLine);
          if done {
            return found;
          }
          lastChange := Some(cs[i]);
          i := i + 1;
        }
        return actualLine;
    }
  }

  /** The rows of the first `k` segments, as the walks count them. */
  function Offset(cs: seq<DiffLines>, k: nat, isRight: bool): int
    requires k <= |cs|
  {
    if k == 0 then 0 else Offset(cs, k - 1, isRight) + Rows(cs, k - 1, isRight)
  }

  function SideLen(c: DiffLines, isRight: bool): nat
  {
    if HasSide(c, isRight) then SideRange(c, isRight).Len() else 0
  }

  /** The pane's lines in the first `k` segments. */
  function SideLines(cs: seq<DiffLines>, k: nat, isRight: bool): nat
    requires k <= |cs|
  {
    if k == 0 then 0 else SideLines(cs, k - 1, isRight) + SideLen(cs[k - 1], isRight)
  }

  /** Passing segments that do not hold the line adds their rows and nothing else. */
  lemma {:induction false} VisualLineAfter(cs: seq<DiffLines>, i: nat, k: nat, isRight: bool, line: nat, acc: int)
    requires i <= k <= |cs|
    requires forall j :: i <= j < k ==> !Holds(cs[j], isRight, line)
    ensures VisualLineFrom(cs, i, isRight, line, acc)
         == VisualLineFrom(cs, k, isRight, line, acc + Offset(cs, k, isRight) - Offset(cs, i, isRight))
    decreases k - i
  {
    if i < k {
      VisualLineAfter(cs, i + 1, k, isRight, line, acc + Rows(cs, i, isRight));
    }
  }

  /** A line inside the pane's own change range maps to the rows above that range plus its
      distance from the range's start. */
  lemma OwnLineLinear(cs: seq<DiffLines>, k: nat, isRight: bool, line: nat)
    requires k < |cs| && OwnSide(cs[k], isRight) && cs[k].range.Contains(line)
    requires forall j :: 0 <= j < k ==> !Holds(cs[j], isRight, line)
    ensures VisualLineFrom(cs, 0, isRight, line, 0) == Offset(cs, k, isRight) + line - cs[k].range.start
  {
    VisualLineAfter(cs, 0, k, isRight, line, 0);
  }

  /** In a `Both` block with a folded part, lines before the fold map one to one, every line
      of the fold maps to the single row that shows it, and lines after the fold map to rows
      moved up by all but one of the fold's lines. */
  lemma BothSkipZones(cs: seq<DiffLines>, k: nat, isRight: bool, line: nat)
    requires k < |cs| && cs[k].Both? && cs[k].both.skip.Some?
    requires cs[k].both.skip.value.start <= cs[k].both.skip.value.end
    requires SideRange(cs[k], isRight).start <= line < SideRange(cs[k], isRight).end
    requires forall j :: 0 <= j < k ==> !Holds(cs[j], isRight, line)
    ensures var start, skip := SideRange(cs[k], isRight).start, cs[k].both.skip.value;
      var r := VisualLineFrom(cs, 0, isRight, line, 0);
      && (line < start + skip.start ==> r == Offset(cs, k, isRight) + (line - start))
      && (start + skip.start <= line < start + skip.end ==> r == Offset(cs, k, isRight) + skip.start)
      && (start + skip.end <= line ==> r == Offset(cs, k, isRight) + (line - start) - skip.Len() + 1)
  {
    VisualLineAfter(cs, 0, k, isRight, line, 0);
  }

  /** A segment list that tiles the pane: every `Both` block unfolded and of equal length on
      both sides, and the pane's ranges following each other from line 0. */
  predicate Tiled(cs: seq<DiffLines>, isRight: bool)
  {
    forall j :: 0 <= j < |cs| ==>
      && (cs[j].Both? ==> cs[j].both.skip.None? && cs[j].both.left.Len() == cs[j].both.right.Len())
      && (HasSide(cs[j], isRight) ==>
            SideRange(cs[j], isRight).start <= SideRange(cs[j], isRight).end &&
            SideRange(cs[j], isRight).start == SideLines(cs, j, isRight))
  }

  /** On a tiled list, the rows between two segments are at least the pane's lines between
      them. */
  lemma {:induction false} OffsetGap(cs: seq<DiffLines>, i: nat, k: nat, isRight: bool)
    requires Tiled(cs, isRight) && i <= k <= |cs|
    ensures SideLines(cs, i, isRight) <= SideLines(cs, k, isRight)
    ensures Offset(cs, i, isRight) + (SideLines(cs, k, isRight) - SideLines(cs, i, isRight)) <= Offset(cs, k, isRight)
    decreases k
  {
    if i < k {
      OffsetGap(cs, i, k - 1, isRight);
      assert Rows(cs, k - 1, isRight) >= SideLen(cs[k - 1], isRight);
    }
  }

  /** On a tiled list, no segment before the one holding `line` stops the walk. */
  lemma TiledNoEarlyStop(cs: seq<DiffLines>, k: nat, isRight: bool, line: nat)
    requires Tiled(cs, isRight) && k < |cs| && HasSide(cs[k], isRight)
    requires SideRange(cs[k], isRight).start <= line
    ensures forall j :: 0 <= j < k ==> !Holds(cs[j], isRight, line)
  {
    forall j | 0 <= j < k
      ensures !Holds(cs[j], isRight, line)
    {
      OffsetGap(cs, j + 1, k, isRight);
    }
  }

  /** One segment of the walk of `actual_line` on a tiled list, towards a row `v` that lies at
      or below the segment's last row: either the walk stops with `line`, or it passes the
      segment having counted its rows and the pane's lines. */
  lemma ActualStep(cs: seq<DiffLines>, i: nat, isRight: bool, line: nat, v: int)
    requires Tiled(cs, isRight) && i < |cs|
    requires Offset(cs, i + 1, isRight) <= v
    requires Offset(cs, i + 1, isRight) == v ==> SideLines(cs, i + 1, isRight) == line
    ensures var r := ActualLineFrom(cs, i, isRight, v, true, Offset(cs, i, isRight), SideLines(cs, i, isRight));
      r == line || r == ActualLineFrom(cs, i + 1, isRight, v, true, Offset(cs, i + 1, isRight), SideLines(cs, i + 1, isRight))
  {
  }

  /** The walk of `actual_line` towards row `v` of a line in segment `k` reaches that line. */
  lemma {:induction false} ActualWalk(cs: seq<DiffLines>, i: nat, k: nat, isRight: bool, line: nat, v: int)
    requires Tiled(cs, isRight) && i <= k < |cs| && HasSide(cs[k], isRight)
    requires SideRange(cs[k], isRight).Contains(line)
    requires v == Offset(cs, k, isRight) + line - SideRange(cs[k], isRight).start
    ensures ActualLineFrom(cs, i, isRight, v, true, Offset(cs, i, isRight), SideLines(cs, i, isRight)) == line
    decreases k - i
  {
    if i < k {
      OffsetGap(cs, i + 1, k, isRight);
      assert SideRange(cs[k], isRight).start == SideLines(cs, k, isRight);
      ActualStep(cs, i, isRight, line, v);
      ActualWalk(cs, i + 1, k, isRight, line, v);
    } else {
      assert cs[k].Both? ==> cs[k].both.skip.None? && cs[k].both.left.Len() == cs[k].both.right.Len();
    }
  }

  /** On a tiled list, `actual_line` (with bottom affinity) undoes `visual_line` for every
      line of the pane. */
  lemma RoundTrip(cs: seq<DiffLines>, k: nat, isRight: bool, line: nat)
    requires Tiled(cs, isRight) && k < |cs| && HasSide(cs[k], isRight)
    requires SideRange(cs[k], isRight).Contains(line)
    ensures ActualLineFrom(cs, 0, isRight, VisualLineFrom(cs, 0, isRight, line, 0), true, 0, 0) == line
  {
    TiledNoEarlyStop(cs, k, isRight, line);
    VisualLineAfter(cs, 0, k, isRight, line, 0);
    ActualWalk(cs, 0, k, isRight, line, Offset(cs, k, isRight) + line - SideRange(cs[k], isRight).start);
  }

  /** A snippet placeholder: its tab stop and the buffer offsets `start..=end` it spans. */
  datatype Placeholder = Placeholder(tab: nat, start: nat, end: nat)
  {
    /** The cursor is in a placeholder when it is anywhere from its start to its end. */
    predicate Holds(offset: nat)
    {
      start <= offset <= end
    }
  }

  /** The placeholder the cursor is in: the first that holds `offset`, or 0 when none does. */
  function CurrentIndex(ps: seq<Placeholder>, offset: nat): (c: nat)
    ensures c == 0 || c < |ps|
    ensures c < |ps| && ps[c].Holds(offset) ==> forall j :: 0 <= j < c ==> !ps[j].Holds(offset)
    ensures (exists j :: 0 <= j < |ps| && ps[j].Holds(offset)) ==> c < |ps| && ps[c].Holds(offset)
    ensures (forall j :: 0 <= j < |ps| ==> !ps[j].Holds(offset)) ==> c == 0
    decreases |ps|
  {
    if ps == [] then 0
    else if ps[0].Holds(offset) then 0
    else
      var c := CurrentIndex(ps[1..], offset);
      assert forall j :: 0 <= j < |ps[1..]| ==> ps[1..][j] == ps[j + 1];
      if c < |ps[1..]| && ps[1..][c].Holds(offset) then c + 1 else 0
  }

  /** The search loop shared by the snippet commands. */
  method FindCurrent(ps: seq<Placeholder>, offset: nat) returns (current: nat)
    ensures current == CurrentIndex(ps, offset)
  {
    current := 0;
    var i := 0;
    while i < |ps|
      invariant i <= |ps|
      invariant forall j :: 0 <= j < i ==> !ps[j].Holds(offset)
    {
      if ps[i].Holds(offset) {
        current := i;
        return;
      }
      i := i + 1;
    }
  }

  /** A snippet whose placeholders follow each other with a gap between neighbours. */
  predicate Separated(ps: seq<Placeholder>)
  {
    && (forall j :: 0 <= j < |ps| ==> ps[j].start <= ps[j].end)
    && (forall j :: 0 <= j < |ps| - 1 ==> ps[j].end < ps[j + 1].start)
  }

  /** In a separated snippet, the cursor anywhere in placeholder `k` makes `k` current. */
  lemma {:induction false} CurrentInSeparated(ps: seq<Placeholder>, k: nat, offset: nat)
    requires Separated(ps) && k < |ps| && ps[k].Holds(offset)
    ensures CurrentIndex(ps, offset) == k
  {
    forall j | 0 <= j < k
      ensures !ps[j].Holds(offset)
    {
      EndsBefore(ps, j, k);
    }
  }

  /** In a separated snippet, every placeholder ends before any later one starts. */
  lemma {:induction false} EndsBefore(ps: seq<Placeholder>, j: nat, k: nat)
    requires Separated(ps) && j < k < |ps|
    ensures ps[j].end < ps[k].start
    decreases k - j
  {
    if j + 1 < k {
      EndsBefore(ps, j + 1, k);
    }
  }

  /** The editor's active snippet, if any. */
  class EditorSnippet {
    var snippet: Option<seq<Placeholder>>

    constructor ()
      ensures snippet == None
    {
      snippet := None;
    }

    /** The commands below take the first placeholder of an active snippet, or its length less
        one: an active snippet with no placeholder left makes them panic. */
    predicate Usable()
      reads this
    {
      snippet.Some? ==> snippet.value != []
    }

    /** `add_snippet_placeholders`: with no active snippet, a new one becomes active only when it
        has more than one placeholder; otherwise the new placeholders take the place of the
        placeholder the cursor is in. */
    method AddPlaceholders(newPlaceholders: seq<Placeholder>, offset: nat)
      requires Usable()
      modifies this`snippet
      ensures old(snippet).None? ==> snippet == (if |newPlaceholders| > 1 then Some(newPlaceholders) else None)
      ensures old(snippet).Some? ==>
        var ps, c := old(snippet).value, CurrentIndex(old(snippet).value, offset);
        c < |ps| && snippet == Some(ps[..c] + newPlaceholders + ps[c + 1..])
    {
      if snippet.None? {
        if |newPlaceholders| > 1 {
          snippet := Some(newPlaceholders);
        }
        return;
      }
      var placeholders := snippet.value;
      var current := FindCurrent(placeholders, offset);
      var v := placeholders[current..];
      placeholders := placeholders[..current];
      placeholders := placeholders + newPlaceholders;
      placeholders := placeholders + v[1..];
      snippet := Some(placeholders);
    }

    /** After a cursor move, the snippet ends when the cursor has left every placeholder. */
    method CursorMoved(offset: nat)
      modifies this`snippet
      ensures old(snippet).Some? && (forall j :: 0 <= j < |old(snippet).value| ==> !old(snippet).value[j].Holds(offset))
        ==> snippet == None
      ensures old(snippet).None? || (exists j :: 0 <= j < |old(snippet).value| && old(snippet).value[j].Holds(offset))
        ==> snippet == old(snippet)
    {
      if snippet.Some? {
        var ps := snippet.value;
        var withinRegion := false;
        var i := 0;
        while i < |ps|
          invariant i <= |ps|
          invariant !withinRegion
          invariant forall j :: 0 <= j < i ==> !ps[j].Holds(offset)
        {
          if offset >= ps[i].start && offset <= ps[i].end {
            withinRegion := true;
            break;
          }
          i := i + 1;
        }
        if !withinRegion {
          snippet := None;
        }
      }
    }

    /** `JumpToNextSnippetPlaceholder`: select the placeholder after the current one, if there
        is one; the snippet ends when the current one is at least the last but one. */
    method JumpToNext(offset: nat) returns (selection: Option<(nat, nat)>)
      requires Usable()
      modifies this`snippet
      ensures old(snippet).None? ==> selection == None && snippet == None
      ensures old(snippet).Some? ==>
        var ps, c := old(snippet).value, CurrentIndex(old(snippet).value, offset);
        && selection == (if c + 1 < |ps| then Some((ps[c + 1].start, ps[c + 1].end)) else None)
        && snippet == (if c + 1 >= |ps| - 1 then None else old(snippet))
    {
      selection := None;
      if snippet.Some? {
        var ps := snippet.value;
        var current := FindCurrent(ps, offset);
        var lastPlaceholder := current + 1 >= |ps| - 1;
        if current + 1 < |ps| {
          selection := Some((ps[current + 1].start, ps[current + 1].end));
        }
        if lastPlaceholder {
          snippet := None;
        }
      }
    }

    /** `JumpToPrevSnippetPlaceholder`: select the placeholder before the current one; from the
        first placeholder nothing happens. */
    method JumpToPrev(offset: nat) returns (selection: Option<(nat, nat)>)
      ensures selection.Some? <==> snippet.Some? && CurrentIndex(snippet.value, offset) > 0
      ensures selection.Some? ==>
        var c := CurrentIndex(snippet.value, offset);
        selection.value == (snippet.value[c - 1].start, snippet.value[c - 1].end)
    {
      selection := None;
      if snippet.Some? {
        var ps := snippet.value;
        var current := FindCurrent(ps, offset);
        if current > 0 {
          selection := Some((ps[current - 1].start, ps[current - 1].end));
        }
      }
    }
  }

  /** In a separated snippet, jumping to the next placeholder and then back from anywhere in
      it selects the placeholder the cursor was in. */
  lemma NextThenPrev(ps: seq<Placeholder>, offset: nat, landed: nat)
    requires Separated(ps)
    requires CurrentIndex(ps, offset) + 1 < |ps| && ps[CurrentIndex(ps, offset) + 1].Holds(landed)
    ensures CurrentIndex(ps, landed) == CurrentIndex(ps, offset) + 1
  {
    CurrentInSeparated(ps, CurrentIndex(ps, offset) + 1, landed);
  }

  /** The edit commands `show_inline_completion` tells apart; the others are not named here. */
  datatype EditCommand =
    | DeleteBackward | DeleteForward | DeleteWordBackward | DeleteWordForward
    | DeleteForwardAndInsert | IndentLine | InsertMode
    | OtherCommand(name: string)

  /** Whether a command removes text or indents a line. */
  predicate Deletes(cmd: EditCommand)
  {
    cmd in {DeleteBackward, DeleteForward, DeleteWordBackward, DeleteWordForward, DeleteForwardAndInsert}
  }

  /** `show_inline_completion`: after an edit command, the inline completion is asked for again
      only for the commands that delete around the cursor, indent the line or enter insert mode. */
  function ShowInlineCompletion(cmd: EditCommand): (r: bool)
    ensures r <==> Deletes(cmd) || cmd == IndentLine || cmd == InsertMode
  {
    match cmd
    case DeleteBackward | DeleteForward | DeleteWordBackward | DeleteWordForward
       | DeleteForwardAndInsert | IndentLine | InsertMode => true
    case _ => false
  }
}
