/**
  Code folding (crates/doc/src/lines/fold_new.rs). The language server reports folding ranges;
  each carries a status the user toggles. The folded ones are extracted into a list of folded
  ranges, which answers per-line questions: is this line hidden, where does it show, how many
  lines are hidden.
*/
module Folding {
  import opened Wrappers

  /** An LSP position: a line and a character on that line, ordered line first. */
  datatype Position = Position(line: nat, character: nat)

  /** The derived order on positions. */
  predicate PosLe(a: Position, b: Position)
  {
    a.line < b.line || (a.line == b.line && a.character <= b.character)
  }

  datatype FoldingRangeStatus = Fold | Unfold
  {
    /** `FoldingRangeStatus::click`, as the value it leaves behind. */
    function Click(): FoldingRangeStatus
    {
      match this
      case Fold => Unfold
      case Unfold => Fold
    }

    /** `FoldingRangeStatus::is_folded`. */
    predicate IsFolded()
    {
      this == Fold
    }
  }

  /** A click flips the folded state, and a second click restores the status. */
  lemma ClickFlips(s: FoldingRangeStatus)
    ensures s.Click().IsFolded() <==> !s.IsFolded()
    ensures s.Click().Click() == s
    ensures s.IsFolded() <==> s.Fold?
  {
  }

  datatype FoldingRange = FoldingRange(start: Position, end: Position, status: FoldingRangeStatus,
                                       collapsedText: Option<string>)

  /** A folded range, built from the start and end positions of a folding range. */
  datatype FoldedRange = FoldedRange(start: Position, end: Position)

  function FoldedOf(r: FoldingRange): FoldedRange
  {
    FoldedRange(r.start, r.end)
  }

  /** An item is passed over when it starts above the last emitted range's end line. */
  predicate Nested(r: FoldingRange, limitLine: nat)
  {
    r.start.line < limitLine && limitLine > 0
  }

  /** The list `get_all_folded_range` builds from `rs`, given the current `limit_line`. */
  function AllFolded(rs: seq<FoldingRange>, limitLine: nat): seq<FoldedRange>
    decreases |rs|
  {
    if rs == [] then []
    else if Nested(rs[0], limitLine) then AllFolded(rs[1..], limitLine)
    else if rs[0].status.IsFolded() then [FoldedOf(rs[0])] + AllFolded(rs[1..], rs[0].end.line)
    else AllFolded(rs[1..], limitLine)
  }

  /** Successive ranges do not nest: each starts no earlier than the line the one before ends
      on (unless that one ends on line 0). */
  predicate Unnested(out: seq<FoldedRange>)
  {
    forall k :: 0 <= k < |out| - 1 ==> out[k].end.line == 0 || out[k].end.line <= out[k + 1].start.line
  }

  /** Every range `get_all_folded_range` emits is a folded item of the list, they come out not
      nested, and the first one starts no earlier than the limit line. */
  lemma {:induction false} AllFoldedShape(rs: seq<FoldingRange>, limitLine: nat)
    ensures forall f :: f in AllFolded(rs, limitLine) ==>
      exists i :: 0 <= i < |rs| && rs[i].status.IsFolded() && f == FoldedOf(rs[i])
    ensures Unnested(AllFolded(rs, limitLine))
    ensures limitLine > 0 && AllFolded(rs, limitLine) != [] ==> AllFolded(rs, limitLine)[0].start.line >= limitLine
    decreases |rs|
  {
    if rs != [] {
      var tail := rs[1..];
      if Nested(rs[0], limitLine) || !rs[0].status.IsFolded() {
        AllFoldedShape(tail, limitLine);
        FromTail(rs, AllFolded(rs, limitLine));
      } else {
        var out := AllFolded(tail, rs[0].end.line);
        AllFoldedShape(tail, rs[0].end.line);
        FromTail(rs, out);
        ConsUnnested(FoldedOf(rs[0]), out);
      }
    }
  }

  /** Ranges taken from the items after the first are taken from the whole list. */
  lemma FromTail(rs: seq<FoldingRange>, out: seq<FoldedRange>)
    requires rs != []
    requires forall f :: f in out ==> exists i :: 0 <= i < |rs[1..]| && rs[1..][i].status.IsFolded() && f == FoldedOf(rs[1..][i])
    ensures forall f :: f in out ==> exists i :: 0 <= i < |rs| && rs[i].status.IsFolded() && f == FoldedOf(rs[i])
  {
    forall f | f in out
      ensures exists i :: 0 <= i < |rs| && rs[i].status.IsFolded() && f == FoldedOf(rs[i])
    {
      var i :| 0 <= i < |rs[1..]| && rs[1..][i].status.IsFolded() && f == FoldedOf(rs[1..][i]);
      assert rs[i + 1] == rs[1..][i];
    }
  }

  lemma ConsUnnested(f: FoldedRange, out: seq<FoldedRange>)
    requires Unnested(out)
    requires f.end.line > 0 && out != [] ==> out[0].start.line >= f.end.line
    ensures Unnested([f] + out)
  {
    var all := [f] + out;
    forall k | 0 <= k < |all| - 1
      ensures all[k].end.line == 0 || all[k].end.line <= all[k + 1].start.line
    {
      if k > 0 {
        assert all[k] == out[k - 1] && all[k + 1] == out[k];
      }
    }
  }

  /** How many items after a folded one start on its end line (they are merged into it). */
  function JoinCount(line: nat, rs: seq<FoldingRange>): (k: nat)
    ensures k <= |rs|
    ensures forall j :: 0 <= j < k ==> rs[j].start.line == line
    ensures k < |rs| ==> rs[k].start.line != line
  {
    if rs == [] || rs[0].start.line != line then 0 else 1 + JoinCount(line, rs[1..])
  }

  /** The list `get_all_folded_folded_range` builds from `rs`, given the current `limit_line`. */
  function MergedFolded(rs: seq<FoldingRange>, limitLine: nat): seq<FoldedRange>
    decreases |rs|
  {
    if rs == [] then []
    else if Nested(rs[0], limitLine) then MergedFolded(rs[1..], limitLine)
    else if rs[0].status.IsFolded() then
      var k := JoinCount(rs[0].end.line, rs[1..]);
      var end := if k == 0 then rs[0].end else rs[k].end;
      [FoldedRange(rs[0].start, end)] + MergedFolded(rs[1 + k..], end.line)
    else MergedFolded(rs[1..], limitLine)
  }

  /** One step of `MergedFolded`, case by case. */
  lemma MergedFoldedStep(rs: seq<FoldingRange>, limitLine: nat)
    requires rs != []
    ensures Nested(rs[0], limitLine) || !rs[0].status.IsFolded() ==>
      MergedFolded(rs, limitLine) == MergedFolded(rs[1..], limitLine)
    ensures !Nested(rs[0], limitLine) && rs[0].status.IsFolded() ==>
      var k := JoinCount(rs[0].end.line, rs[1..]);
      var end := if k == 0 then rs[0].end else rs[k].end;
      MergedFolded(rs, limitLine) == [FoldedRange(rs[0].start, end)] + MergedFolded(rs[1 + k..], end.line)
  {
  }

  /** A range `get_all_folded_folded_range` emits for the folded item `rs[i]`: from its start
      to the end of the last item joined to it, `rs[i + k]`. */
  predicate MergedFrom(f: FoldedRange, rs: seq<FoldingRange>, i: nat, k: nat)
  {
    i + k < |rs| && rs[i].status.IsFolded() && f.start == rs[i].start && f.end == rs[i + k].end &&
    forall j :: i < j <= i + k ==> rs[j].start.line == rs[i].end.line
  }

  /** Every merged range starts at a folded item and ends where the last of the items that start
      on that item's end line ends; the merged ranges do not nest. */
  lemma {:induction false} MergedFoldedShape(rs: seq<FoldingRange>, limitLine: nat)
    ensures forall f :: f in MergedFolded(rs, limitLine) ==> exists i, k :: MergedFrom(f, rs, i, k)
    ensures Unnested(MergedFolded(rs, limitLine))
    ensures limitLine > 0 && MergedFolded(rs, limitLine) != [] ==> MergedFolded(rs, limitLine)[0].start.line >= limitLine
    decreases |rs|
  {
    if rs != [] {
      if Nested(rs[0], limitLine) || !rs[0].status.IsFolded() {
        MergedFoldedShape(rs[1..], limitLine);
        MergedFromTail(rs, 1, MergedFolded(rs, limitLine));
      } else {
        var k := JoinCount(rs[0].end.line, rs[1..]);
        var end := if k == 0 then rs[0].end else rs[k].end;
        var out := MergedFolded(rs[1 + k..], end.line);
        MergedFoldedShape(rs[1 + k..], end.line);
        MergedFromTail(rs, 1 + k, out);
        assert MergedFrom(FoldedRange(rs[0].start, end), rs, 0, k) by {
          forall j | 0 < j <= k ensures rs[j].start.line == rs[0].end.line {
            assert rs[j] == rs[1..][j - 1];
          }
        }
        ConsUnnested(FoldedRange(rs[0].start, end), out);
      }
    }
  }

  lemma MergedFromTail(rs: seq<FoldingRange>, d: nat, out: seq<FoldedRange>)
    requires d <= |rs|
    requires forall f :: f in out ==> exists i, k :: MergedFrom(f, rs[d..], i, k)
    ensures forall f :: f in out ==> exists i, k :: MergedFrom(f, rs, i, k)
  {
    forall f | f in out
      ensures exists i, k :: MergedFrom(f, rs, i, k)
    {
      var i: nat, k: nat :| MergedFrom(f, rs[d..], i, k);
      forall j | i + d < j <= i + d + k ensures rs[j].start.line == rs[i + d].end.line {
        assert rs[j] == rs[d..][j - d];
      }
      assert MergedFrom(f, rs, i + d, k);
    }
  }

  /** Items that start on a folded item's end line are merged into it even when a later item
      continues the chain: three folded ranges on lines 0-3, 3-5 and 5-7 give 0-5 and 5-7. */
  lemma MergeExample()
    ensures
      var fold := FoldingRange(Position(0, 0), Position(3, 0), Fold, None);
      var next := FoldingRange(Position(3, 0), Position(5, 0), Fold, None);
      var last := FoldingRange(Position(5, 0), Position(7, 0), Fold, None);
      MergedFolded([fold, next, last], 0) ==
        [FoldedRange(Position(0, 0), Position(5, 0)), FoldedRange(Position(5, 0), Position(7, 0))]
  {
    var fold := FoldingRange(Position(0, 0), Position(3, 0), Fold, None);
    var next := FoldingRange(Position(3, 0), Position(5, 0), Fold, None);
    var last := FoldingRange(Position(5, 0), Position(7, 0), Fold, None);
    var rs := [fold, next, last];
    assert rs[1..] == [next, last] && [next, last][1..] == [last];
    assert JoinCount(3, [last]) == 0;
    assert JoinCount(3, rs[1..]) == 1;
    assert rs[2..] == [last] && [last][1..] == [];
    assert JoinCount(7, [last][1..]) == 0;
    assert MergedFolded([last], 5) == [FoldedRange(Position(5, 0), Position(7, 0))];
  }

  /** Whether a range matches the position a display item or phantom text points at. */
  predicate Matches(r: FoldingRange, position: Position, byEnd: bool)
  {
    if byEnd then r.end == position else r.start == position
  }

  /** The index of the first range matching the position (`|rs|` if none does). */
  function FirstMatch(rs: seq<FoldingRange>, position: Position, byEnd: bool): (k: nat)
    ensures k <= |rs|
    ensures forall j :: 0 <= j < k ==> !Matches(rs[j], position, byEnd)
    ensures k < |rs| ==> Matches(rs[k], position, byEnd)
  {
    if rs == [] || Matches(rs[0], position, byEnd) then 0 else 1 + FirstMatch(rs[1..], position, byEnd)
  }

  /** The list with the status of item `k` clicked (unchanged when there is no item `k`). */
  function ClickAt(rs: seq<FoldingRange>, k: nat): (r: seq<FoldingRange>)
    ensures |r| == |rs|
    ensures forall j :: 0 <= j < |rs| ==> r[j].start == rs[j].start && r[j].end == rs[j].end
  {
    if k < |rs| then rs[k := rs[k].(status := rs[k].status.Click())] else rs
  }

  /** Clicking the same position twice restores every status. */
  lemma ClickTwice(rs: seq<FoldingRange>, position: Position, byEnd: bool)
    ensures
      var once := ClickAt(rs, FirstMatch(rs, position, byEnd));
      FirstMatch(once, position, byEnd) == FirstMatch(rs, position, byEnd) &&
      ClickAt(once, FirstMatch(once, position, byEnd)) == rs
  {
    var k := FirstMatch(rs, position, byEnd);
    var once := ClickAt(rs, k);
    var k2 := FirstMatch(once, position, byEnd);
    assert forall j :: 0 <= j < |rs| ==> (Matches(once[j], position, byEnd) <==> Matches(rs[j], position, byEnd));
    if k < |rs| {
      ClickFlips(rs[k].status);
    }
  }

  /** `FoldedRanges::update_status`: fold the range if an equal folded range exists. */
  function UpdateStatus(folded: seq<FoldedRange>, f: FoldingRange): (r: FoldingRange)
    ensures r.start == f.start && r.end == f.end && r.collapsedText == f.collapsedText
    ensures r.status.IsFolded() <==> f.status.IsFolded() || FoldedOf(f) in folded
  {
    if FoldedOf(f) in folded then f.(status := Fold) else f
  }

  /** What `update_ranges` leaves: the new ranges, folded where the old list folded them. */
  function Refreshed(folded: seq<FoldedRange>, newRanges: seq<FoldingRange>): (r: seq<FoldingRange>)
    ensures |r| == |newRanges|
    ensures forall i :: 0 <= i < |newRanges| ==> r[i] == UpdateStatus(folded, newRanges[i])
  {
    seq(|newRanges|, i requires 0 <= i < |newRanges| => UpdateStatus(folded, newRanges[i]))
  }

  /** No two items cover the same range. */
  predicate DistinctRanges(rs: seq<FoldingRange>)
  {
    forall i, j :: 0 <= i < j < |rs| ==> FoldedOf(rs[i]) != FoldedOf(rs[j])
  }

  /** Refreshing with the list the ranges already hold changes nothing. */
  lemma RefreshSame(rs: seq<FoldingRange>)
    requires DistinctRanges(rs)
    ensures Refreshed(AllFolded(rs, 0), rs) == rs
  {
    AllFoldedShape(rs, 0);
    var folded := AllFolded(rs, 0);
    forall j | 0 <= j < |rs|
      ensures UpdateStatus(folded, rs[j]) == rs[j]
    {
      if FoldedOf(rs[j]) in folded {
        var i :| 0 <= i < |rs| && rs[i].status.IsFolded() && FoldedOf(rs[j]) == FoldedOf(rs[i]);
        assert i == j;
      }
    }
  }

  /** The list of folding ranges of a document. */
  class FoldingRanges {
    var items: seq<FoldingRange>

    constructor (items: seq<FoldingRange>)
      ensures this.items == items
    {
      this.items := items;
    }

    /** `get_all_folded_range`: the folded items, skipping those nested in an emitted one. */
    method GetAllFoldedRange() returns (range: seq<FoldedRange>)
      ensures range == AllFolded(items, 0)
    {
      range := [];
      var limitLine := 0;
      var i := 0;
      while i < |items|
        invariant 0 <= i <= |items|
        invariant range + AllFolded(items[i..], limitLine) == AllFolded(items, 0)
      {
        var item := items[i];
        assert items[i..][1..] == items[i + 1..];
        i := i + 1;
        if Nested(item, limitLine) {
          continue;
        }
        if item.status.IsFolded() {
          range := range + [FoldedOf(item)];
          limitLine := item.end.line;
        }
      }
    }

    /** `get_all_folded_folded_range`: like `get_all_folded_range`, but a folded item absorbs the
        items right after it that start on its end line. */
    method GetAllFoldedFoldedRange() returns (range: seq<FoldedRange>)
      ensures range == MergedFolded(items, 0)
    {
      range := [];
      var limitLine := 0;
      var i := 0;
      while i < |items|
        invariant 0 <= i <= |items|
        invariant range + MergedFolded(items[i..], limitLine) == MergedFolded(items, 0)
      {
        var emitted;
        ghost var before := MergedFolded(items[i..], limitLine);
        emitted, i, limitLine := MergeOne(i, limitLine);
        assert (range + emitted) + MergedFolded(items[i..], limitLine) == range + before;
        range := range + emitted;
      }
    }

    /** One pass of the loop of `get_all_folded_folded_range` at item `i`: skip it if it nests
        in the last emitted range; emit it, with the items joined to it, if it is folded. */
    method MergeOne(i: nat, limitLine: nat) returns (emitted: seq<FoldedRange>, next: nat, nextLimit: nat)
      requires i < |items|
      ensures i < next <= |items| && |emitted| <= 1
      ensures emitted + MergedFolded(items[next..], nextLimit) == MergedFolded(items[i..], limitLine)
    {
      var item := items[i];
      ghost var rest := items[i..];
      assert rest[1..] == items[i + 1..];
      MergedFoldedStep(rest, limitLine);
      next, nextLimit, emitted := i + 1, limitLine, [];
      if Nested(item, limitLine) {
        return;
      }
      if item.status.IsFolded() {
        var start, end := item.start, item.end;
        ghost var k := JoinCount(item.end.line, items[next..]);
        end, next := JoinFrom(next, item.end.line, end);
        assert rest[1 + k..] == items[next..];
        assert k > 0 ==> rest[k] == items[next - 1];
        emitted := [FoldedRange(start, end)];
        nextLimit := end.line;
      }
    }

    /** The inner loop of `get_all_folded_folded_range`: from `from` on, take the items that start
        on `line`, ending up at the end of the last one taken. */
    method JoinFrom(from: nat, line: nat, end0: Position) returns (end: Position, i: nat)
      requires from <= |items|
      ensures i == from + JoinCount(line, items[from..]) && i <= |items|
      ensures end == if i == from then end0 else items[i - 1].end
    {
      ghost var k := JoinCount(line, items[from..]);
      end, i := end0, from;
      while i < |items| && line == items[i].start.line
        invariant from <= i <= from + k
        invariant end == if i == from then end0 else items[i - 1].end
      {
        assert items[i] == items[from..][i - from];
        end := items[i].end;
        i := i + 1;
      }
      JoinCountExact(line, items[from..], i - from);
    }

    /** `update_ranges`: install the new ranges, folding those the current list folds. */
    method UpdateRanges(newRanges: seq<FoldingRange>)
      modifies this`items
      ensures items == Refreshed(AllFolded(old(items), 0), newRanges)
    {
      var foldedRange := GetAllFoldedRange();
      var updated := newRanges;
      var i := 0;
      while i < |updated|
        invariant 0 <= i <= |updated| == |newRanges|
        invariant forall j :: 0 <= j < i ==> updated[j] == UpdateStatus(foldedRange, newRanges[j])
        invariant forall j :: i <= j < |updated| ==> updated[j] == newRanges[j]
      {
        updated := updated[i := UpdateStatus(foldedRange, updated[i])];
        i := i + 1;
      }
      items := updated;
    }

    /** Click the first range that matches the position. */
    method ClickFirst(position: Position, byEnd: bool)
      modifies this`items
      ensures items == ClickAt(old(items), FirstMatch(old(items), position, byEnd))
    {
      var i := 0;
      while i < |items|
        invariant 0 <= i <= |items|
        invariant forall j :: 0 <= j < i ==> !Matches(items[j], position, byEnd)
      {
        if Matches(items[i], position, byEnd) {
          assert FirstMatch(items, position, byEnd) == i;
          items := items[i := items[i].(status := items[i].status.Click())];
          return;
        }
        i := i + 1;
      }
    }

    /** `update_folding_item`: an end marker clicks the range ending there, a start or folded
        marker the range starting there. */
    method UpdateFoldingItem(item: FoldingDisplayItem)
      modifies this`items
      ensures items == ClickAt(old(items), FirstMatch(old(items), item.position, item.ty.UnfoldEnd?))
    {
      match item.ty
      case UnfoldStart => ClickFirst(item.position, false);
      case Folded => ClickFirst(item.position, false);
      case UnfoldEnd => ClickFirst(item.position, true);
    }

    /** `update_by_phantom`: click the range starting at the position. */
    method UpdateByPhantom(position: Position)
      modifies this`items
      ensures items == ClickAt(old(items), FirstMatch(old(items), position, false))
    {
      ClickFirst(position, false);
    }
  }

  datatype FoldingDisplayType = UnfoldStart | Folded | UnfoldEnd

  /** A fold marker in the gutter; `y` is where it is painted. */
  datatype FoldingDisplayItem = FoldingDisplayItem(position: Position, y: int, ty: FoldingDisplayType)

  /** The lines a folded range hides, one per line after its start line. */
  function Span(f: FoldedRange): int
  {
    f.end.line - f.start.line
  }

  /** The sum of the spans, added up from the first range on. */
  function SpanSum(rs: seq<FoldedRange>): int
  {
    if rs == [] then 0 else SpanSum(rs[..|rs| - 1]) + Span(rs[|rs| - 1])
  }

  /** The accumulating fold in `folded_line_count`, from `count` on. */
  function CountFrom(rs: seq<FoldedRange>, count: int): int
  {
    if rs == [] then count else CountFrom(rs[1..], count + Span(rs[0]))
  }

  /** `FoldedRanges::folded_line_count`: the sum over the ranges of end line minus start line. */
  function FoldedLineCount(rs: seq<FoldedRange>): (r: int)
    ensures r == SpanSum(rs)
  {
    CountFromSum(rs, 0);
    CountFrom(rs, 0)
  }

  lemma {:induction false} CountFromSum(rs: seq<FoldedRange>, count: int)
    ensures CountFrom(rs, count) == count + SpanSum(rs)
    decreases |rs|
  {
    if rs != [] {
      CountFromSum(rs[1..], count + Span(rs[0]));
      SpanSumCons(rs);
    }
  }

  lemma {:induction false} SpanSumCons(rs: seq<FoldedRange>)
    requires rs != []
    ensures SpanSum(rs) == Span(rs[0]) + SpanSum(rs[1..])
    decreases |rs|
  {
    if |rs| > 1 {
      SpanSumCons(rs[..|rs| - 1]);
      assert rs[..|rs| - 1][1..] == rs[1..][..|rs[1..]| - 1];
      assert rs[..|rs| - 1][0] == rs[0];
    } else {
      assert rs[..|rs| - 1] == [] && rs[1..] == [];
    }
  }

  /** A range covers a line when the line lies between its start and end lines, inclusive. */
  predicate CoversLine(f: FoldedRange, line: nat)
  {
    f.start.line <= line <= f.end.line
  }

  /** `FoldedRanges::filter_by_line`: the ranges covering the line, in order. */
  function FilterByLine(rs: seq<FoldedRange>, line: nat): (r: seq<FoldedRange>)
    ensures forall f :: f in r <==> f in rs && CoversLine(f, line)
    ensures |r| <= |rs|
  {
    if rs == [] then []
    else (if CoversLine(rs[0], line) then [rs[0]] else []) + FilterByLine(rs[1..], line)
  }

  /** Filtering a concatenation filters each part: the order of the ranges is kept. */
  lemma {:induction false} FilterByLineAppend(a: seq<FoldedRange>, b: seq<FoldedRange>, line: nat)
    ensures FilterByLine(a + b, line) == FilterByLine(a, line) + FilterByLine(b, line)
    decreases |a|
  {
    if a == [] {
      assert a + b == b;
    } else {
      assert (a + b)[0] == a[0] && (a + b)[1..] == a[1..] + b;
      FilterByLineAppend(a[1..], b, line);
    }
  }

  /** A range hides a line when the line lies after its start line, up to its end line. */
  predicate Hides(f: FoldedRange, line: nat)
  {
    f.start.line < line <= f.end.line
  }

  /** `FoldedRanges::visual_line`: a hidden line shows on the start line of the range hiding it;
      the search stops at the first range that starts at or below the line. */
  function VisualLine(rs: seq<FoldedRange>, line: nat): (r: nat)
    ensures r <= line
    ensures r < line ==> exists i :: 0 <= i < |rs| && Hides(rs[i], line) && rs[i].start.line == r
    ensures (forall i :: 0 <= i < |rs| ==> !Hides(rs[i], line)) ==> r == line
  {
    if rs == [] then line
    else if line <= rs[0].start.line then line
    else if Hides(rs[0], line) then rs[0].start.line
    else
      var r := VisualLine(rs[1..], line);
      assert forall i :: 0 <= i < |rs[1..]| ==> rs[1..][i] == rs[i + 1];
      r
  }

  /** `FoldedRanges::contain_line`: from `startIndex` on, pass over the ranges that end above the
      line; answer whether the next one hides the line, with its index for the next call. */
  method ContainLine(rs: seq<FoldedRange>, startIndex: nat, line: nat) returns (hidden: bool, index: nat)
    ensures startIndex >= |rs| ==> hidden == false && index == startIndex
    ensures startIndex < |rs| ==> startIndex <= index <= |rs|
    ensures forall j :: startIndex <= j < index ==> rs[j].end.line < line
    ensures hidden <==> index < |rs| && Hides(rs[index], line)
    ensures !hidden && index < |rs| ==> rs[index].start.line >= line
  {
    if startIndex >= |rs| {
      return false, startIndex;
    }
    index := startIndex;
    var i := startIndex;
    while i < |rs|
      invariant startIndex <= i <= |rs| && index == i
      invariant forall j :: startIndex <= j < i ==> rs[j].end.line < line
    {
      var range := rs[i];
      if range.start.line >= line {
        return false, index;
      } else if range.start.line < line && range.end.line >= line {
        return true, index;
      } else if range.end.line < line {
        index := index + 1;
      }
      i := i + 1;
    }
    hidden := false;
  }

  /** A range contains a position when the position lies between its ends, inclusive. */
  predicate Within(f: FoldedRange, position: Position)
  {
    PosLe(f.start, position) && PosLe(position, f.end)
  }

  /** `FoldedRanges::contain_position`. */
  function ContainPosition(rs: seq<FoldedRange>, position: Position): (r: bool)
    ensures r <==> exists i :: 0 <= i < |rs| && Within(rs[i], position)
  {
    if rs == [] then false
    else
      assert forall i :: 0 <= i < |rs[1..]| ==> rs[1..][i] == rs[i + 1];
      Within(rs[0], position) || ContainPosition(rs[1..], position)
  }

  /** How many leading folded ranges end above `line`. */
  function EndedBefore(fs: seq<FoldedRange>, line: nat): (k: nat)
    ensures k <= |fs|
    ensures forall j :: 0 <= j < k ==> fs[j].end.line < line
    ensures k < |fs| ==> fs[k].end.line >= line
  {
    if fs == [] || fs[0].end.line >= line then 0 else 1 + EndedBefore(fs[1..], line)
  }

  /** The ranges that continue a chain ending on `endLine`: how many there are and the line the
      chain then ends on. */
  function Chain(fs: seq<FoldedRange>, endLine: nat): (r: (nat, nat))
    ensures r.0 <= |fs|
    ensures forall j :: 0 <= j < r.0 ==> fs[j].start.line == (if j == 0 then endLine else fs[j - 1].end.line)
    ensures r.1 == if r.0 == 0 then endLine else fs[r.0 - 1].end.line
    ensures r.0 < |fs| ==> fs[r.0].start.line != r.1
  {
    if fs == [] || fs[0].start.line != endLine then (0, endLine)
    else
      var (n, e) := Chain(fs[1..], fs[0].end.line);
      assert forall j :: 0 <= j < |fs[1..]| ==> fs[1..][j] == fs[j + 1];
      (n + 1, e)
  }

  /** A count that stops where `EndedBefore`, `JoinCount` or `Chain` stop is theirs. */
  lemma EndedBeforeExact(fs: seq<FoldedRange>, line: nat, c: nat)
    requires c <= EndedBefore(fs, line)
    requires c == |fs| || fs[c].end.line >= line
    ensures c == EndedBefore(fs, line)
  {
  }

  lemma JoinCountExact(line: nat, rs: seq<FoldingRange>, m: nat)
    requires m <= JoinCount(line, rs)
    requires m == |rs| || rs[m].start.line != line
    ensures m == JoinCount(line, rs)
  {
  }

  lemma ChainExact(fs: seq<FoldedRange>, endLine: nat, m: nat)
    requires m <= Chain(fs, endLine).0
    requires m == |fs| || fs[m].start.line != (if m == 0 then endLine else fs[m - 1].end.line)
    ensures m == Chain(fs, endLine).0
  {
  }

  /** What `get_folded_range_by_line` returns for `line`, and how many ranges it consumes. */
  function FoldedByLine(fs: seq<FoldedRange>, line: nat): (r: (Option<(nat, nat)>, nat))
    ensures r.1 <= |fs|
    ensures r.0.Some? <==> EndedBefore(fs, line) < |fs| && CoversLine(fs[EndedBefore(fs, line)], line)
    ensures r.0.Some? ==> r.0.value.0 == fs[EndedBefore(fs, line)].start.line <= line
    ensures r.0.None? ==> r.1 == EndedBefore(fs, line)
    ensures r.0.Some? ==> r.1 > EndedBefore(fs, line)
  {
    var k := EndedBefore(fs, line);
    if k < |fs| && CoversLine(fs[k], line) then
      var (n, e) := Chain(fs[k + 1..], fs[k].end.line);
      (Some((fs[k].start.line, e)), k + 1 + n)
    else (None, k)
  }

  /** The display line `get_line_num` finds for the folded-line index `target`, walking from
      line `lineNum` (folded-line index `index`) with the ranges `fs` still ahead. */
  function LineNum(fs: seq<FoldedRange>, target: nat, lastLine: nat, index: nat, lineNum: nat): (r: (Option<nat>, seq<FoldedRange>))
    ensures r.0.Some? ==> r.0.value <= lastLine
    decreases |fs|, lastLine + 1 - lineNum
  {
    if lineNum > lastLine then (None, fs)
    else if index == target then (Some(lineNum), fs)
    else
      var fb := FoldedByLine(fs, lineNum);
      LineNum(fs[fb.1..], target, lastLine, index + 1, NextLine(fb.0, lineNum))
  }

  /** One step of `get_line_num` below `lastLine` and short of `target`. */
  lemma LineNumStep(fs: seq<FoldedRange>, target: nat, lastLine: nat, index: nat, lineNum: nat)
    requires lineNum <= lastLine && index != target
    ensures var fb := FoldedByLine(fs, lineNum);
      LineNum(fs, target, lastLine, index, lineNum) == LineNum(fs[fb.1..], target, lastLine, index + 1, NextLine(fb.0, lineNum))
  {
  }

  /** Where `get_line_num` goes on from `lineNum`: past the found range, or to the next line. */
  function NextLine(found: Option<(nat, nat)>, lineNum: nat): nat
  {
    if found.Some? then found.value.1 + 1 else lineNum + 1
  }

  /** Without folded ranges, the `target`-th line shows on line `target`. */
  lemma {:induction false} LineNumUnfolded(target: nat, lastLine: nat, index: nat, lineNum: nat)
    requires index <= target
    ensures LineNum([], target, lastLine, index, lineNum).0 ==
      if lineNum + target - index <= lastLine then Some(lineNum + target - index) else None
    decreases lastLine + 1 - lineNum
  {
    if lineNum <= lastLine && index != target {
      assert FoldedByLine([], lineNum).0 == None;
      LineNumUnfolded(target, lastLine, index + 1, lineNum + 1);
    }
  }

  /** The walk over folded ranges that lays out display lines. */
  class MergeFoldingRangesLine {
    var folding: seq<FoldedRange>

    constructor (folding: seq<FoldedRange>)
      ensures this.folding == folding
    {
      this.folding := folding;
    }

    /** `get_folded_range_by_line`: pass over the ranges ending above `line`; if the next one
        covers `line`, consume it and the chain of ranges starting where it ends, and return the
        lines from its start to the chain's end. */
    method GetFoldedRangeByLine(line: nat) returns (r: Option<(nat, nat)>)
      modifies this`folding
      ensures r == FoldedByLine(old(folding), line).0
      ensures folding == old(folding)[FoldedByLine(old(folding), line).1..]
    {
      SkipEnded(line);
      ghost var c := EndedBefore(old(folding), line);
      if folding != [] && folding[0].start.line <= line && line <= folding[0].end.line {
        var startLine := folding[0].start.line;
        var endLine := folding[0].end.line;
        folding := folding[1..];
        assert folding == old(folding)[c + 1..];
        endLine := TakeChain(endLine);
        r := Some((startLine, endLine));
      } else {
        r := None;
      }
    }

    /** The first loop of `get_folded_range_by_line`: drop the ranges that end above `line`. */
    method SkipEnded(line: nat)
      modifies this`folding
      ensures folding == old(folding)[EndedBefore(old(folding), line)..]
    {
      ghost var c := 0;
      while folding != [] && folding[0].end.line < line
        invariant c <= EndedBefore(old(folding), line) && folding == old(folding)[c..]
      {
        assert old(folding)[c] == folding[0];
        folding := folding[1..];
        c := c + 1;
      }
      EndedBeforeExact(old(folding), line, c);
    }

    /** The inner loop of `get_folded_range_by_line`: take the ranges that continue the chain
        ending on `endLine`, and return the line the chain ends on. */
    method TakeChain(endLine0: nat) returns (endLine: nat)
      modifies this`folding
      ensures endLine == Chain(old(folding), endLine0).1
      ensures folding == old(folding)[Chain(old(folding), endLine0).0..]
    {
      endLine := endLine0;
      ghost var n := Chain(folding, endLine0).0;
      ghost var m := 0;
      while folding != [] && folding[0].start.line == endLine
        invariant m <= n && folding == old(folding)[m..]
        invariant endLine == if m == 0 then endLine0 else old(folding)[m - 1].end.line
      {
        assert old(folding)[m] == folding[0];
        endLine := folding[0].end.line;
        folding := folding[1..];
        m := m + 1;
      }
      ChainExact(old(folding), endLine0, m);
    }

    /** `get_line_num`: the display line of the `originFoldedIndex`-th folded line, or None when
        it lies beyond `lastLine`. */
    method GetLineNum(originFoldedIndex: nat, lastLine: nat) returns (r: Option<nat>)
      modifies this`folding
      ensures (r, folding) == LineNum(old(folding), originFoldedIndex, lastLine, 0, 0)
    {
      var index: nat := 0;
      var lineNum: nat := 0;
      while lineNum <= lastLine
        invariant LineNum(folding, originFoldedIndex, lastLine, index, lineNum) == LineNum(old(folding), originFoldedIndex, lastLine, 0, 0)
        decreases |folding|, lastLine + 1 - lineNum
      {
        if index == originFoldedIndex {
          return Some(lineNum);
        }
        lineNum := NextLineNum(originFoldedIndex, lastLine, index, lineNum);
        index := index + 1;
      }
      r := None;
    }

    /** One pass of the loop of `get_line_num`: look up the folded range at `lineNum` and go on
        past it, or to the next line. */
    method NextLineNum(originFoldedIndex: nat, lastLine: nat, index: nat, lineNum: nat) returns (next: nat)
      requires lineNum <= lastLine && index != originFoldedIndex
      modifies this`folding
      ensures LineNum(folding, originFoldedIndex, lastLine, index + 1, next) == LineNum(old(folding), originFoldedIndex, lastLine, index, lineNum)
      ensures |folding| < |old(folding)| || (|folding| == |old(folding)| && next > lineNum)
    {
      ghost var found := FoldedByLine(folding, lineNum);
      LineNumStep(folding, originFoldedIndex, lastLine, index, lineNum);
      var folded := GetFoldedRangeByLine(lineNum);
      if folded.Some? {
        next := folded.value.1 + 1;
      } else {
        next := lineNum + 1;
      }
      assert folded == found.0 && next == NextLine(found.0, lineNum);
    }
  }
}
