/**
  The side classifier of the diff view (crates/doc/src/lines/diff.rs). A diff is a list of
  segments: lines only on the left (`Left`), lines common to both sides (`Both`), lines only on
  the right (`Right`). `left_changes` and `right_changes` turn it into the line ranges one pane
  paints as changed or as empty filler, and `PeekDiff` walks such a list line by line.
*/
module Diff {
  import opened Wrappers

  /** `Range<usize>`: the lines `start..end`, empty when `start >= end`. */
  datatype Range = Range(start: nat, end: nat)
  {
    /** `ExactSizeIterator::len` of a range. */
    function Len(): nat
    {
      if start < end then end - start else 0
    }

    predicate Contains(line: nat)
    {
      start <= line < end
    }
  }

  /** The `Both` segment: the matching ranges on each side, and the part the view may fold. */
  datatype BothLines = BothLines(left: Range, right: Range, skip: Option<Range>)

  datatype DiffLines = Left(range: Range) | Both(both: BothLines) | Right(range: Range)

  /** What a pane paints over a range: filler lines (`Empty`) or changed lines (`Changed`). */
  datatype DiffResult = Empty(lines: Range) | Changed(lines: Range)
  {
    /** `DiffResult::consume_line`: the filler range that holds `line`, if this is one. */
    function ConsumeLine(line: nat): (r: Option<Range>)
      ensures r.Some? <==> Empty? && lines.Contains(line)
      ensures r.Some? ==> r.value == lines
    {
      match this
      case Empty(lines) => if lines.Contains(line) then Some(lines) else None
      case Changed(_) => None
    }

    /** `DiffResult::is_diff`: whether this is a changed range holding `line`. */
    function IsDiff(line: nat): (r: bool)
      ensures r <==> Changed? && lines.Contains(line)
    {
      match this
      case Empty(_) => false
      case Changed(lines) => lines.Contains(line)
    }
  }

  datatype DiffInfo = DiffInfo(isRight: bool, changes: seq<DiffLines>)

  /** The `len` lines that follow the last anchor range, or the first `len` lines. */
  function After(anchor: Option<Range>, len: nat): (r: Range)
    ensures r.Len() == len
  {
    match anchor
    case None => Range(0, len)
    case Some(a) => Range(a.end, a.end + len)
  }

  /** Whether the segment after the first one is a `Right` that pairs with it. */
  predicate PairedRight(cs: seq<DiffLines>)
  {
    |cs| > 1 && cs[1].Right?
  }

  /** The filler that pads the shorter side of a paired edit up to the longer side. */
  function Padding(short: Range, long: Range): seq<DiffResult>
  {
    if short.Len() < long.Len() then [Empty(Range(short.end, short.end + long.Len() - short.Len()))]
    else []
  }

  /** What `left_changes` emits for `cs`, given the last left range seen before it. */
  function LeftSpec(cs: seq<DiffLines>, anchor: Option<Range>): seq<DiffResult>
    decreases |cs|
  {
    if cs == [] then []
    else match cs[0]
      case Left(d) =>
        if PairedRight(cs) then [Changed(d)] + Padding(d, cs[1].range) + LeftSpec(cs[2..], Some(d))
        else [Changed(d)] + LeftSpec(cs[1..], Some(d))
      case Both(b) => LeftSpec(cs[1..], Some(b.left))
      case Right(d) => [Empty(After(anchor, d.Len()))] + LeftSpec(cs[1..], anchor)
  }

  /** What `right_changes` emits for `cs`, given the last right range seen before it. */
  function RightSpec(cs: seq<DiffLines>, anchor: Option<Range>): seq<DiffResult>
    decreases |cs|
  {
    if cs == [] then []
    else match cs[0]
      case Left(d) =>
        if PairedRight(cs) then
          var r := cs[1].range;
          [Changed(r)] + Padding(r, d) + RightSpec(cs[2..], Some(r))
        else [Empty(After(anchor, d.Len()))] + RightSpec(cs[1..], anchor)
      case Both(b) => RightSpec(cs[1..], Some(b.right))
      case Right(d) => [Changed(After(anchor, d.Len()))] + RightSpec(cs[1..], anchor)
  }

  /** One step of `left_changes` at position `i`: the entries it emits, where it goes on, and
      the anchor it leaves. */
  predicate LeftMove(cs: seq<DiffLines>, i: nat, anchor: Option<Range>, emitted: seq<DiffResult>, j: nat, next: Option<Range>)
    requires i < |cs|
  {
    match cs[i]
    case Left(d) =>
      next == Some(d) &&
      if i + 1 < |cs| && cs[i + 1].Right? then j == i + 2 && emitted == [Changed(d)] + Padding(d, cs[i + 1].range)
      else j == i + 1 && emitted == [Changed(d)]
    case Both(b) => j == i + 1 && next == Some(b.left) && emitted == []
    case Right(d) => j == i + 1 && next == anchor && emitted == [Empty(After(anchor, d.Len()))]
  }

  /** One step of `right_changes` at position `i`. */
  predicate RightMove(cs: seq<DiffLines>, i: nat, anchor: Option<Range>, emitted: seq<DiffResult>, j: nat, next: Option<Range>)
    requires i < |cs|
  {
    match cs[i]
    case Left(d) =>
      if i + 1 < |cs| && cs[i + 1].Right? then
        j == i + 2 && next == Some(cs[i + 1].range) && emitted == [Changed(cs[i + 1].range)] + Padding(cs[i + 1].range, d)
      else j == i + 1 && next == anchor && emitted == [Empty(After(anchor, d.Len()))]
    case Both(b) => j == i + 1 && next == Some(b.right) && emitted == []
    case Right(d) => j == i + 1 && next == anchor && emitted == [Changed(After(anchor, d.Len()))]
  }

  /** A step of `left_changes` keeps "emitted so far, then what the rest emits" equal to what
      the whole list emits. */
  lemma LeftAdvance(cs: seq<DiffLines>, i: nat, anchor: Option<Range>, emitted: seq<DiffResult>, j: nat, next: Option<Range>,
                    done: seq<DiffResult>, total: seq<DiffResult>)
    requires i < |cs| && LeftMove(cs, i, anchor, emitted, j, next)
    requires done + LeftSpec(cs[i..], anchor) == total
    ensures j <= |cs| && (done + emitted) + LeftSpec(cs[j..], next) == total
  {
    var rest := cs[i..];
    assert rest[0] == cs[i] && rest[1..] == cs[i + 1..];
    if j == i + 2 {
      assert rest[1] == cs[i + 1] && rest[2..] == cs[i + 2..];
    }
    assert LeftSpec(rest, anchor) == emitted + LeftSpec(cs[j..], next);
  }

  /** The same for `right_changes`. */
  lemma RightAdvance(cs: seq<DiffLines>, i: nat, anchor: Option<Range>, emitted: seq<DiffResult>, j: nat, next: Option<Range>,
                     done: seq<DiffResult>, total: seq<DiffResult>)
    requires i < |cs| && RightMove(cs, i, anchor, emitted, j, next)
    requires done + RightSpec(cs[i..], anchor) == total
    ensures j <= |cs| && (done + emitted) + RightSpec(cs[j..], next) == total
  {
    var rest := cs[i..];
    assert rest[0] == cs[i] && rest[1..] == cs[i + 1..];
    if j == i + 2 {
      assert rest[1] == cs[i + 1] && rest[2..] == cs[i + 2..];
    }
    assert RightSpec(rest, anchor) == emitted + RightSpec(cs[j..], next);
  }

  /** `DiffInfo::left_changes`. Each step collects what it pushes in `pushed`. */
  method LeftChanges(info: DiffInfo) returns (diffTys: seq<DiffResult>)
    ensures diffTys == LeftSpec(info.changes, None)
  {
    var cs := info.changes;
    var i := 0;
    var nextLeftChangeLine: Option<Range> := None;
    diffTys := [];
    while i < |cs|
      invariant 0 <= i <= |cs|
      invariant diffTys + LeftSpec(cs[i..], nextLeftChangeLine) == LeftSpec(cs, None)
    {
      ghost var at, anchor := i, nextLeftChangeLine;
      var pushed := [];
      var change := cs[i];
      i := i + 1;
      match change {
      case Left(d) =>
        nextLeftChangeLine := Some(d);
        pushed := pushed + [Changed(d)];
        if i < |cs| && cs[i].Right? {
          var rightDiff := cs[i].range;
          if d.Len() < rightDiff.Len() {
            pushed := pushed + [Empty(Range(d.end, d.end + rightDiff.Len() - d.Len()))];
          }
          i := i + 1;
        }
      case Both(b) =>
        nextLeftChangeLine := Some(b.left);
      case Right(d) =>
        pushed := pushed + [Empty(After(nextLeftChangeLine, d.Len()))];
      }
      LeftAdvance(cs, at, anchor, pushed, i, nextLeftChangeLine, diffTys, LeftSpec(cs, None));
      diffTys := diffTys + pushed;
    }
  }

  /** `DiffInfo::right_changes`. Each step collects what it pushes in `pushed`. */
  method RightChanges(info: DiffInfo) returns (diffTys: seq<DiffResult>)
    ensures diffTys == RightSpec(info.changes, None)
  {
    var cs := info.changes;
    var i := 0;
    var nextRightChangeLine: Option<Range> := None;
    diffTys := [];
    while i < |cs|
      invariant 0 <= i <= |cs|
      invariant diffTys + RightSpec(cs[i..], nextRightChangeLine) == RightSpec(cs, None)
    {
      ghost var at, anchor := i, nextRightChangeLine;
      var pushed := [];
      var change := cs[i];
      i := i + 1;
      match change {
      case Left(leftDiff) =>
        if i < |cs| && cs[i].Right? {
          var d := cs[i].range;
          i := i + 1;
          pushed := pushed + [Changed(d)];
          if d.Len() < leftDiff.Len() {
            pushed := pushed + [Empty(Range(d.end, d.end + leftDiff.Len() - d.Len()))];
          }
          nextRightChangeLine := Some(d);
        } else {
          pushed := pushed + [Empty(After(nextRightChangeLine, leftDiff.Len()))];
        }
      case Both(b) =>
        nextRightChangeLine := Some(b.right);
      case Right(d) =>
        pushed := pushed + [Changed(After(nextRightChangeLine, d.Len()))];
      }
      RightAdvance(cs, at, anchor, pushed, i, nextRightChangeLine, diffTys, RightSpec(cs, None));
      diffTys := diffTys + pushed;
    }
  }

  /** `DiffInfo::changes`: the right pane's list when `is_right`, the left pane's otherwise. */
  method Changes(info: DiffInfo) returns (r: seq<DiffResult>)
    ensures r == if info.isRight then RightSpec(info.changes, None) else LeftSpec(info.changes, None)
  {
    if info.isRight {
      r := RightChanges(info);
    } else {
      r := LeftChanges(info);
    }
  }

  /** The ranges of the `Changed` entries, in order. */
  function ChangedLines(rs: seq<DiffResult>): seq<Range>
  {
    if rs == [] then []
    else (if rs[0].Changed? then [rs[0].lines] else []) + ChangedLines(rs[1..])
  }

  /** The ranges of the `Left` segments, in order. */
  function LeftRanges(cs: seq<DiffLines>): seq<Range>
  {
    if cs == [] then []
    else (if cs[0].Left? then [cs[0].range] else []) + LeftRanges(cs[1..])
  }

  /** The lengths of the `Right` segments, in order. */
  function RightLens(cs: seq<DiffLines>): seq<nat>
  {
    if cs == [] then []
    else (if cs[0].Right? then [cs[0].range.Len()] else []) + RightLens(cs[1..])
  }

  function Lens(rs: seq<Range>): seq<nat>
  {
    if rs == [] then [] else [rs[0].Len()] + Lens(rs[1..])
  }

  /** How many lines a pane paints for a list of entries. */
  function TotalLines(rs: seq<DiffResult>): nat
  {
    if rs == [] then 0 else rs[0].lines.Len() + TotalLines(rs[1..])
  }

  lemma {:induction false} ChangedLinesAppend(a: seq<DiffResult>, b: seq<DiffResult>)
    ensures ChangedLines(a + b) == ChangedLines(a) + ChangedLines(b)
    decreases |a|
  {
    if a != [] {
      assert (a + b)[0] == a[0] && (a + b)[1..] == a[1..] + b;
      ChangedLinesAppend(a[1..], b);
    } else {
      assert a + b == b;
    }
  }

  lemma {:induction false} TotalLinesAppend(a: seq<DiffResult>, b: seq<DiffResult>)
    ensures TotalLines(a + b) == TotalLines(a) + TotalLines(b)
    decreases |a|
  {
    if a != [] {
      assert (a + b)[0] == a[0] && (a + b)[1..] == a[1..] + b;
      TotalLinesAppend(a[1..], b);
    } else {
      assert a + b == b;
    }
  }

  lemma {:induction false} LensAppend(a: seq<Range>, b: seq<Range>)
    ensures Lens(a + b) == Lens(a) + Lens(b)
    decreases |a|
  {
    if a != [] {
      assert (a + b)[0] == a[0] && (a + b)[1..] == a[1..] + b;
      LensAppend(a[1..], b);
    } else {
      assert a + b == b;
    }
  }

  /** Unfolding the list functions on a list that starts with a given entry. */
  lemma ResultCons(x: DiffResult, rs: seq<DiffResult>)
    ensures ChangedLines([x] + rs) == (if x.Changed? then [x.lines] else []) + ChangedLines(rs)
    ensures TotalLines([x] + rs) == x.lines.Len() + TotalLines(rs)
  {
    assert ([x] + rs)[1..] == rs;
  }

  /** The padding is filler only, and pads to the longer of the two ranges. */
  lemma PaddingShape(short: Range, long: Range)
    ensures ChangedLines(Padding(short, long)) == []
    ensures short.Len() + TotalLines(Padding(short, long)) == if short.Len() < long.Len() then long.Len() else short.Len()
  {
  }

  /** The left pane marks as changed exactly the `Left` ranges, in order; everything else it
      emits is filler. */
  lemma {:induction false} LeftChangedAreLefts(cs: seq<DiffLines>, anchor: Option<Range>)
    ensures ChangedLines(LeftSpec(cs, anchor)) == LeftRanges(cs)
    decreases |cs|
  {
    if cs != [] {
      match cs[0]
      case Left(d) =>
        if PairedRight(cs) {
          var tail := LeftSpec(cs[2..], Some(d));
          LeftChangedAreLefts(cs[2..], Some(d));
          PaddingShape(d, cs[1].range);
          ResultCons(Changed(d), Padding(d, cs[1].range) + tail);
          ChangedLinesAppend(Padding(d, cs[1].range), tail);
          assert [Changed(d)] + Padding(d, cs[1].range) + tail == [Changed(d)] + (Padding(d, cs[1].range) + tail);
          assert cs[1..][1..] == cs[2..];
        } else {
          LeftChangedAreLefts(cs[1..], Some(d));
          ResultCons(Changed(d), LeftSpec(cs[1..], Some(d)));
        }
      case Both(b) =>
        LeftChangedAreLefts(cs[1..], Some(b.left));
      case Right(d) =>
        LeftChangedAreLefts(cs[1..], anchor);
        ResultCons(Empty(After(anchor, d.Len())), LeftSpec(cs[1..], anchor));
    }
  }

  /** The right pane marks one changed range per `Right` segment, in order and of the same
      length (a paired one at its own range, a lone one right after the anchor). */
  lemma {:induction false} RightChangedAreRights(cs: seq<DiffLines>, anchor: Option<Range>)
    ensures Lens(ChangedLines(RightSpec(cs, anchor))) == RightLens(cs)
    decreases |cs|
  {
    if cs != [] {
      match cs[0]
      case Left(d) =>
        if PairedRight(cs) {
          var r := cs[1].range;
          var tail := RightSpec(cs[2..], Some(r));
          RightChangedAreRights(cs[2..], Some(r));
          PaddingShape(r, d);
          ResultCons(Changed(r), Padding(r, d) + tail);
          ChangedLinesAppend(Padding(r, d), tail);
          assert [Changed(r)] + Padding(r, d) + tail == [Changed(r)] + (Padding(r, d) + tail);
          LensAppend([r], ChangedLines(tail));
          assert ChangedLines(RightSpec(cs, anchor)) == [r] + ChangedLines(tail);
          assert cs[1..][1..] == cs[2..];
          assert RightLens(cs) == [r.Len()] + RightLens(cs[2..]);
        } else {
          RightChangedAreRights(cs[1..], anchor);
          ResultCons(Empty(After(anchor, d.Len())), RightSpec(cs[1..], anchor));
          assert RightLens(cs) == RightLens(cs[1..]);
          assert ChangedLines(RightSpec(cs, anchor)) == ChangedLines(RightSpec(cs[1..], anchor));
        }
      case Both(b) =>
        RightChangedAreRights(cs[1..], Some(b.right));
      case Right(d) =>
        var tail := RightSpec(cs[1..], anchor);
        RightChangedAreRights(cs[1..], anchor);
        ResultCons(Changed(After(anchor, d.Len())), tail);
        LensAppend([After(anchor, d.Len())], ChangedLines(tail));
    }
  }

  /** The two panes stay aligned: whatever the anchors, the left pane and the right pane paint
      the same number of lines for the same segments. */
  lemma {:induction false} PanesAligned(cs: seq<DiffLines>, left: Option<Range>, right: Option<Range>)
    ensures TotalLines(LeftSpec(cs, left)) == TotalLines(RightSpec(cs, right))
    decreases |cs|
  {
    if cs != [] {
      match cs[0]
      case Left(d) =>
        if PairedRight(cs) {
          var r := cs[1].range;
          var lt, rt := LeftSpec(cs[2..], Some(d)), RightSpec(cs[2..], Some(r));
          PanesAligned(cs[2..], Some(d), Some(r));
          PaddingShape(d, r);
          PaddingShape(r, d);
          ResultCons(Changed(d), Padding(d, r) + lt);
          TotalLinesAppend(Padding(d, r), lt);
          assert [Changed(d)] + Padding(d, r) + lt == [Changed(d)] + (Padding(d, r) + lt);
          ResultCons(Changed(r), Padding(r, d) + rt);
          TotalLinesAppend(Padding(r, d), rt);
          assert [Changed(r)] + Padding(r, d) + rt == [Changed(r)] + (Padding(r, d) + rt);
        } else {
          PanesAligned(cs[1..], Some(d), right);
          ResultCons(Changed(d), LeftSpec(cs[1..], Some(d)));
          ResultCons(Empty(After(right, d.Len())), RightSpec(cs[1..], right));
        }
      case Both(b) =>
        PanesAligned(cs[1..], Some(b.left), Some(b.right));
      case Right(d) =>
        PanesAligned(cs[1..], left, right);
        ResultCons(Empty(After(left, d.Len())), LeftSpec(cs[1..], left));
        ResultCons(Changed(After(right, d.Len())), RightSpec(cs[1..], right));
    }
  }

  /** How many leading entries the free `is_diff` drops: those that end at or before `line`. */
  function Skipped(items: seq<DiffResult>, line: nat): (k: nat)
    ensures k <= |items|
    ensures forall j :: 0 <= j < k ==> items[j].lines.end <= line
    ensures k < |items| ==> items[k].lines.end > line
  {
    if items == [] || items[0].lines.end > line then 0
    else 1 + Skipped(items[1..], line)
  }

  /** The peekable list of diff entries a pane walks as it lays out lines. */
  class PeekDiff {
    var items: seq<DiffResult>

    constructor (items: seq<DiffResult>)
      ensures this.items == items
    {
      this.items := items;
    }

    /** Free `is_diff`: drop the entries that end at or before `line`, then ask the first one
        left whether `line` is a changed line. */
    method IsDiff(line: nat) returns (r: bool)
      modifies this`items
      ensures items == old(items)[Skipped(old(items), line)..]
      ensures r <==> items != [] && items[0].Changed? && items[0].lines.Contains(line)
    {
      while items != [] && items[0].lines.end <= line
        invariant items[Skipped(items, line)..] == old(items)[Skipped(old(items), line)..]
        decreases |items|
      {
        assert items[Skipped(items, line)..] == items[1..][Skipped(items[1..], line)..];
        items := items[1..];
      }
      if items == [] {
        r := false;
      } else {
        r := items[0].IsDiff(line);
      }
    }

    /** Free `advance`: drop the first entry if it ends at or before `lineIndex`. */
    method Advance(lineIndex: nat)
      modifies this`items
      ensures old(items) != [] && old(items)[0].lines.end <= lineIndex ==> items == old(items)[1..]
      ensures !(old(items) != [] && old(items)[0].lines.end <= lineIndex) ==> items == old(items)
    {
      if items != [] && items[0].lines.end <= lineIndex {
        items := items[1..];
      }
    }

    /** Free `consume_line`: the filler range of the first entry that holds `lineIndex`. */
    function ConsumeLine(lineIndex: nat): (r: Option<Range>)
      reads this
      ensures r.Some? <==> items != [] && items[0].Empty? && items[0].lines.Contains(lineIndex)
      ensures r.Some? ==> r.value == items[0].lines
    {
      if items == [] then None else items[0].ConsumeLine(lineIndex)
    }
  }
}
