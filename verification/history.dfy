/**
  The revision log of the text buffer (crates/doc/src/lines/buffer/mod.rs) and the functions
  that read it: walking the log backwards to recover the deletion mask of an earlier revision,
  walking it forwards to recompute the mask for a new set of undone groups, and building the
  next revision for an edit. Everything here is a function of the buffer's state passed in as
  values; the `Buffer` class calls these and installs the results.

  The log only makes sense together with the length of the union string before and after each
  revision. The source never stores these; the model carries them as the ghost sequence `lens`
  (`lens[i]` is the union length before revision `i`, `lens[|revs|]` the current one) so that
  the length conditions of the subset operations can be stated.
*/
module History {
  import opened Wrappers
  import opened Subsets

  /** The cursor saved with a revision; what it contains is not modelled. */
  datatype CursorMode = CursorMode(token: nat)

  datatype Contents =
    | Edit(undoGroup: nat, inserts: Subset, deletes: Subset)
    | Undo(toggledGroups: set<nat>, deletesBitxor: Subset)

  datatype Revision = Revision(
    num: nat,
    maxUndoSoFar: nat,
    edit: Contents,
    cursorBefore: Option<CursorMode>,
    cursorAfter: Option<CursorMode>)

  /** `BTreeSet::symmetric_difference`. */
  function SymDiff(a: set<nat>, b: set<nat>): (r: set<nat>)
    ensures forall g :: g in r <==> (g in a) != (g in b)
  {
    (a - b) + (b - a)
  }

  function Max(a: nat, b: nat): (r: nat)
    ensures r >= a && r >= b && (r == a || r == b)
  {
    if a >= b then a else b
  }

  /** The smallest element of a non-empty set (the first element a `BTreeSet` iterates). */
  function SetMin(s: set<nat>): (m: nat)
    requires s != {}
    ensures m in s && forall y :: y in s ==> m <= y
  {
    HasMin(s);
    var m :| m in s && forall y :: y in s ==> m <= y;
    m
  }

  lemma HasMin(s: set<nat>)
    requires s != {}
    ensures exists m :: m in s && forall y :: y in s ==> m <= y
  {
    var m := MinOf(s);
  }

  lemma {:induction false} MinOf(s: set<nat>) returns (m: nat)
    requires s != {}
    ensures m in s && forall y :: y in s ==> m <= y
    decreases s
  {
    var x :| x in s;
    if s == {x} {
      m := x;
    } else {
      var m' := MinOf(s - {x});
      m := if x < m' then x else m';
      forall y | y in s
        ensures m <= y
      {
        if y != x {
          assert y in s - {x};
        }
      }
    }
  }

  // ---------------------------------------------------------------------------------------
  // Lengths along the log.

  /** A revision turns a union string of length `before` into one of length `after`. */
  ghost predicate StepOk(c: Contents, before: nat, after: nat)
  {
    match c
    case Edit(_, ins, del) => |ins| == after && |del| == after && CountFalse(ins) == before
    case Undo(_, x) => |x| == after && before == after
  }

  /** `lens` gives the union length around every revision; revision 0 is the placeholder
      undo revision every buffer starts with. */
  ghost predicate Chain(revs: seq<Revision>, lens: seq<nat>)
  {
    |revs| >= 1 && |lens| == |revs| + 1 && revs[0].edit.Undo? && lens[0] == lens[1] &&
    forall i :: 1 <= i < |revs| ==> ChainStep(revs, lens, i)
  }

  /** The lengths around revision `i` fit its contents. */
  ghost predicate ChainStep(revs: seq<Revision>, lens: seq<nat>, i: nat)
  {
    1 <= i < |revs| && i + 1 < |lens| && StepOk(revs[i].edit, lens[i], lens[i + 1])
  }

  lemma ChainAppend(revs: seq<Revision>, lens: seq<nat>, r: Revision, len: nat)
    requires Chain(revs, lens) && StepOk(r.edit, lens[|revs|], len)
    ensures Chain(revs + [r], lens + [len])
  {
    var revs', lens' := revs + [r], lens + [len];
    forall i | 1 <= i < |revs'|
      ensures ChainStep(revs', lens', i)
    {
      if i < |revs| {
        assert ChainStep(revs, lens, i);
        assert revs'[i] == revs[i] && lens'[i] == lens[i] && lens'[i + 1] == lens[i + 1];
      }
    }
  }

  // ---------------------------------------------------------------------------------------
  // Walking the log backwards (`deletes_from_union_before_index`).

  /** Undo the effect of one revision on a deletion mask. An edit of an undone group only has
      its inserts shrunk away; an edit of a live group first has its deletes un-deleted. An undo
      revision is inverted through its xor mask when `invert` is set and skipped otherwise. */
  function UnwindStep(c: Contents, mask: Subset, undone: set<nat>, invert: bool): (r: Subset)
    requires c.Edit? ==> |c.inserts| == |mask| && |c.deletes| == |mask|
    requires c.Undo? && invert ==> |c.deletesBitxor| == |mask|
    ensures c.Edit? ==> |r| == CountFalse(c.inserts)
    ensures c.Undo? ==> |r| == |mask|
  {
    match c
    case Edit(g, ins, del) =>
      if g in undone then Shrink(mask, ins) else Shrink(Subtract(mask, del), ins)
    case Undo(_, x) =>
      if invert then Xor(mask, x) else mask
  }

  /** The undone groups before one revision, when undo revisions are inverted. */
  function UndoneStep(c: Contents, undone: set<nat>, invert: bool): set<nat>
  {
    if c.Undo? && invert then SymDiff(undone, c.toggledGroups) else undone
  }

  /** The loop of `deletes_from_union_before_index`: starting from the mask after revision
      `i - 1`, undo revisions `i - 1` down to `k`. */
  function Unwind(revs: seq<Revision>, ghost lens: seq<nat>, k: nat, i: nat, mask: Subset,
                  undone: set<nat>, invert: bool): (r: Subset)
    requires Chain(revs, lens) && k <= i <= |revs| && |mask| == lens[i] && (invert ==> k >= 1)
    ensures |r| == lens[k]
    decreases i
  {
    if i == k then mask
    else
      var c := revs[i - 1].edit;
      assert i - 1 >= 1 ==> ChainStep(revs, lens, i - 1);
      Unwind(revs, lens, k, i - 1, UnwindStep(c, mask, undone, invert), UndoneStep(c, undone, invert), invert)
  }

  /** The undone groups the same backward walk arrives at. */
  ghost function UnwoundUndone(revs: seq<Revision>, k: nat, i: nat, undone: set<nat>, invert: bool): set<nat>
    requires k <= i <= |revs|
    decreases i
  {
    if i == k then undone
    else UnwoundUndone(revs, k, i - 1, UndoneStep(revs[i - 1].edit, undone, invert), invert)
  }

  /** The backward walk only reads the revisions below where it starts, so appending to the
      log does not change it. */
  lemma {:induction false} UnwindAppend(revs: seq<Revision>, lens: seq<nat>, r: Revision, len: nat,
                                        k: nat, i: nat, mask: Subset, undone: set<nat>, invert: bool)
    requires Chain(revs, lens) && Chain(revs + [r], lens + [len])
    requires k <= i <= |revs| && |mask| == lens[i] && (invert ==> k >= 1)
    ensures Unwind(revs + [r], lens + [len], k, i, mask, undone, invert) == Unwind(revs, lens, k, i, mask, undone, invert)
    ensures UnwoundUndone(revs + [r], k, i, undone, invert) == UnwoundUndone(revs, k, i, undone, invert)
    decreases i
  {
    if i != k {
      var c := revs[i - 1].edit;
      assert (revs + [r])[i - 1] == revs[i - 1];
      assert (lens + [len])[i] == lens[i];
      assert i - 1 >= 1 ==> ChainStep(revs, lens, i - 1);
      UnwindAppend(revs, lens, r, len, k, i - 1, UnwindStep(c, mask, undone, invert), UndoneStep(c, undone, invert), invert);
    }
  }

  /** `deletes_from_union_for_index`: the deletion mask right after revision `index`, in the
      coordinates of the union string of that time. */
  function DeletesFromUnionForIndex(revs: seq<Revision>, ghost lens: seq<nat>, dfu: Subset,
                                    undone: set<nat>, index: nat): (r: Subset)
    requires Chain(revs, lens) && |dfu| == lens[|revs|] && index < |revs|
    ensures |r| == lens[index + 1]
  {
    Unwind(revs, lens, index + 1, |revs|, dfu, undone, true)
  }

  /** The masks the buffer had after each revision, and the undone groups of those times, are
      exactly what the backward walk recovers from the present. */
  ghost predicate Recorded(revs: seq<Revision>, lens: seq<nat>, masks: seq<Subset>, undoneAt: seq<set<nat>>,
                           dfu: Subset, undone: set<nat>)
  {
    Chain(revs, lens) && |dfu| == lens[|revs|] && |masks| == |revs| && |undoneAt| == |revs| &&
    forall i :: 0 <= i < |revs| ==> RecordedAt(revs, lens, masks, undoneAt, dfu, undone, i)
  }

  /** The record of revision `i`: walking back to just after it gives its mask and undone groups. */
  ghost predicate RecordedAt(revs: seq<Revision>, lens: seq<nat>, masks: seq<Subset>, undoneAt: seq<set<nat>>,
                             dfu: Subset, undone: set<nat>, i: nat)
  {
    Chain(revs, lens) && |dfu| == lens[|revs|] && i < |revs| && i < |masks| && i < |undoneAt| &&
    Unwind(revs, lens, i + 1, |revs|, dfu, undone, true) == masks[i] &&
    UnwoundUndone(revs, i + 1, |revs|, undone, true) == undoneAt[i]
  }

  /** What the record says about revision `i`: `deletes_from_union_for_index(i)` is its mask. */
  lemma RecordedMask(revs: seq<Revision>, lens: seq<nat>, masks: seq<Subset>, undoneAt: seq<set<nat>>,
                     dfu: Subset, undone: set<nat>, i: nat)
    requires Recorded(revs, lens, masks, undoneAt, dfu, undone) && i < |revs|
    ensures DeletesFromUnionForIndex(revs, lens, dfu, undone, i) == masks[i]
  {
    assert RecordedAt(revs, lens, masks, undoneAt, dfu, undone, i);
  }

  /** One step of the backward walk over a newly appended revision, then the old walk. */
  lemma {:induction false} UnwindAppendStep(revs: seq<Revision>, lens: seq<nat>, r: Revision, dfu: Subset,
                                            undone: set<nat>, dfu': Subset, undone': set<nat>, k: nat)
    requires Chain(revs, lens) && |dfu| == lens[|revs|] && 1 <= k <= |revs|
    requires StepOk(r.edit, |dfu|, |dfu'|)
    requires UnwindStep(r.edit, dfu', undone', true) == dfu
    requires UndoneStep(r.edit, undone', true) == undone
    ensures Chain(revs + [r], lens + [|dfu'|])
    ensures Unwind(revs + [r], lens + [|dfu'|], k, |revs| + 1, dfu', undone', true) == Unwind(revs, lens, k, |revs|, dfu, undone, true)
    ensures UnwoundUndone(revs + [r], k, |revs| + 1, undone', true) == UnwoundUndone(revs, k, |revs|, undone, true)
  {
    var revs', lens' := revs + [r], lens + [|dfu'|];
    ChainAppend(revs, lens, r, |dfu'|);
    assert revs'[|revs'| - 1] == r;
    assert lens'[|revs'|] == |dfu'| && lens'[|revs|] == |dfu|;
    UnwindAppend(revs, lens, r, |dfu'|, k, |revs|, dfu, undone, true);
  }

  /** Appending a revision that the backward walk can undo keeps the record. */
  lemma RecordedAppend(revs: seq<Revision>, lens: seq<nat>, masks: seq<Subset>, undoneAt: seq<set<nat>>,
                       dfu: Subset, undone: set<nat>, r: Revision, dfu': Subset, undone': set<nat>)
    requires Recorded(revs, lens, masks, undoneAt, dfu, undone)
    requires StepOk(r.edit, |dfu|, |dfu'|)
    requires UnwindStep(r.edit, dfu', undone', true) == dfu
    requires UndoneStep(r.edit, undone', true) == undone
    ensures Recorded(revs + [r], lens + [|dfu'|], masks + [dfu'], undoneAt + [undone'], dfu', undone')
  {
    var revs', lens', masks', undoneAt' := revs + [r], lens + [|dfu'|], masks + [dfu'], undoneAt + [undone'];
    ChainAppend(revs, lens, r, |dfu'|);
    forall i | 0 <= i < |revs'|
      ensures RecordedAt(revs', lens', masks', undoneAt', dfu', undone', i)
    {
      if i < |revs| {
        RecordedAtAppend(revs, lens, masks, undoneAt, dfu, undone, r, dfu', undone', i);
      }
    }
  }

  /** The record of an earlier revision survives appending one. */
  lemma RecordedAtAppend(revs: seq<Revision>, lens: seq<nat>, masks: seq<Subset>, undoneAt: seq<set<nat>>,
                         dfu: Subset, undone: set<nat>, r: Revision, dfu': Subset, undone': set<nat>, i: nat)
    requires RecordedAt(revs, lens, masks, undoneAt, dfu, undone, i)
    requires StepOk(r.edit, |dfu|, |dfu'|)
    requires UnwindStep(r.edit, dfu', undone', true) == dfu
    requires UndoneStep(r.edit, undone', true) == undone
    ensures RecordedAt(revs + [r], lens + [|dfu'|], masks + [dfu'], undoneAt + [undone'], dfu', undone', i)
  {
    UnwindAppendStep(revs, lens, r, dfu, undone, dfu', undone', i + 1);
    assert (masks + [dfu'])[i] == masks[i] && (undoneAt + [undone'])[i] == undoneAt[i];
  }

  /** The backward walk reads only the `edit` part of each revision: changing cursors or
      numbers does not affect it. */
  lemma {:induction false} UnwindSameEdits(revs: seq<Revision>, revs': seq<Revision>, lens: seq<nat>,
                                           k: nat, i: nat, mask: Subset, undone: set<nat>, invert: bool)
    requires Chain(revs, lens) && |revs'| == |revs|
    requires forall j :: 0 <= j < |revs| ==> revs'[j].edit == revs[j].edit
    requires k <= i <= |revs| && |mask| == lens[i] && (invert ==> k >= 1)
    ensures Chain(revs', lens)
    ensures Unwind(revs', lens, k, i, mask, undone, invert) == Unwind(revs, lens, k, i, mask, undone, invert)
    ensures UnwoundUndone(revs', k, i, undone, invert) == UnwoundUndone(revs, k, i, undone, invert)
    decreases i
  {
    assert Chain(revs', lens) by {
      forall j | 1 <= j < |revs'|
        ensures ChainStep(revs', lens, j)
      {
        assert ChainStep(revs, lens, j);
        assert revs'[j].edit == revs[j].edit;
      }
      assert revs'[0].edit == revs[0].edit;
    }
    if i != k {
      var c := revs[i - 1].edit;
      assert revs'[i - 1].edit == c;
      assert i - 1 >= 1 ==> ChainStep(revs, lens, i - 1);
      UnwindSameEdits(revs, revs', lens, k, i - 1, UnwindStep(c, mask, undone, invert), UndoneStep(c, undone, invert), invert);
    }
  }

  lemma RecordedSameEdits(revs: seq<Revision>, revs': seq<Revision>, lens: seq<nat>, masks: seq<Subset>,
                          undoneAt: seq<set<nat>>, dfu: Subset, undone: set<nat>)
    requires Recorded(revs, lens, masks, undoneAt, dfu, undone) && |revs'| == |revs|
    requires forall j :: 0 <= j < |revs| ==> revs'[j].edit == revs[j].edit
    ensures Recorded(revs', lens, masks, undoneAt, dfu, undone)
  {
    UnwindSameEdits(revs, revs', lens, |revs|, |revs|, dfu, undone, true);
    forall i | 0 <= i < |revs'|
      ensures RecordedAt(revs', lens, masks, undoneAt, dfu, undone, i)
    {
      assert RecordedAt(revs, lens, masks, undoneAt, dfu, undone, i);
      UnwindSameEdits(revs, revs', lens, i + 1, |revs|, dfu, undone, true);
    }
  }

  /** The loop of `deletes_from_cur_union_for_index`: carry a mask forward to the current union
      string, treating the inserts of every later edit as deleted. */
  function LiftThroughInserts(revs: seq<Revision>, ghost lens: seq<nat>, j: nat, mask: Subset): (r: Subset)
    requires Chain(revs, lens) && 1 <= j <= |revs| && |mask| == lens[j]
    ensures |r| == lens[|revs|]
    decreases |revs| - j
  {
    if j == |revs| then mask
    else
      assert ChainStep(revs, lens, j);
      match revs[j].edit
      case Edit(_, ins, _) =>
        LiftThroughInserts(revs, lens, j + 1, if !IsEmpty(ins) then TransformUnion(mask, ins) else mask)
      case Undo(_, _) =>
        LiftThroughInserts(revs, lens, j + 1, mask)
  }

  /** `deletes_from_cur_union_for_index`. */
  function DeletesFromCurUnionForIndex(revs: seq<Revision>, ghost lens: seq<nat>, dfu: Subset,
                                       undone: set<nat>, index: nat): (r: Subset)
    requires Chain(revs, lens) && |dfu| == lens[|revs|] && index < |revs|
    ensures |r| == |dfu|
    ensures index == |revs| - 1 ==> r == dfu
  {
    LiftThroughInserts(revs, lens, index + 1, DeletesFromUnionForIndex(revs, lens, dfu, undone, index))
  }

  /** `find_rev`: the last index whose revision carries `num`. */
  function FindRev(revs: seq<Revision>, num: nat): (r: Option<nat>)
    ensures r.Some? ==> r.value < |revs| && revs[r.value].num == num &&
                        forall j :: r.value < j < |revs| ==> revs[j].num != num
    ensures r.None? ==> forall j :: 0 <= j < |revs| ==> revs[j].num != num
  {
    if revs == [] then None
    else if revs[|revs| - 1].num == num then Some(|revs| - 1)
    else FindRev(revs[..|revs| - 1], num)
  }

  /** `is_equivalent_revision`: both revisions exist and leave the same characters of the
      current union string deleted. */
  function IsEquivalentRevision(revs: seq<Revision>, ghost lens: seq<nat>, dfu: Subset, undone: set<nat>,
                                baseRev: nat, otherRev: nat): (r: bool)
    requires Chain(revs, lens) && |dfu| == lens[|revs|]
    ensures r <==> FindRev(revs, baseRev).Some? && FindRev(revs, otherRev).Some? &&
                   DeletesFromCurUnionForIndex(revs, lens, dfu, undone, FindRev(revs, baseRev).value) ==
                   DeletesFromCurUnionForIndex(revs, lens, dfu, undone, FindRev(revs, otherRev).value)
    ensures FindRev(revs, baseRev).Some? && baseRev == otherRev ==> r
  {
    var b := FindRev(revs, baseRev);
    var o := FindRev(revs, otherRev);
    var baseSubset := if b.Some? then Some(DeletesFromCurUnionForIndex(revs, lens, dfu, undone, b.value)) else None;
    var otherSubset := if o.Some? then Some(DeletesFromCurUnionForIndex(revs, lens, dfu, undone, o.value)) else None;
    baseSubset.Some? && baseSubset == otherSubset
  }

  // ---------------------------------------------------------------------------------------
  // Undo.

  /** One past the last revision whose `max_undo_so_far` is below `bound`, or 0. */
  function LastBelow(revs: seq<Revision>, bound: nat): (r: nat)
    ensures r <= |revs|
    ensures r > 0 ==> revs[r - 1].maxUndoSoFar < bound
    ensures forall j :: r <= j < |revs| ==> revs[j].maxUndoSoFar >= bound
  {
    if revs == [] then 0
    else if revs[|revs| - 1].maxUndoSoFar < bound then |revs|
    else LastBelow(revs[..|revs| - 1], bound)
  }

  /** `find_first_undo_candidate_index`. */
  function FirstUndoCandidate(revs: seq<Revision>, toggled: set<nat>): (r: nat)
    ensures r <= |revs|
    ensures toggled == {} ==> r == |revs|
    ensures toggled != {} ==> (r > 0 ==> revs[r - 1].maxUndoSoFar < SetMin(toggled)) &&
                              forall j :: r <= j < |revs| ==> revs[j].maxUndoSoFar >= SetMin(toggled)
  {
    if toggled == {} then |revs| else LastBelow(revs, SetMin(toggled))
  }

  /** The log keeps `max_undo_so_far` non-decreasing and at least the group of its own edit. */
  ghost predicate MaxUndoOrdered(revs: seq<Revision>)
  {
    forall i, j :: 0 <= i <= j < |revs| ==> MaxUndoPair(revs, i, j)
  }

  /** Revision `i` has an edit group no larger than its `max_undo_so_far`, which is no larger
      than that of the later revision `j`. */
  ghost predicate MaxUndoPair(revs: seq<Revision>, i: nat, j: nat)
  {
    i <= j < |revs| && revs[i].maxUndoSoFar <= revs[j].maxUndoSoFar &&
    (revs[i].edit.Edit? ==> revs[i].edit.undoGroup <= revs[i].maxUndoSoFar)
  }

  lemma MaxUndoAppend(revs: seq<Revision>, r: Revision)
    requires |revs| >= 1 && MaxUndoOrdered(revs) && revs[|revs| - 1].maxUndoSoFar <= r.maxUndoSoFar
    requires r.edit.Edit? ==> r.edit.undoGroup <= r.maxUndoSoFar
    ensures MaxUndoOrdered(revs + [r])
  {
    var revs' := revs + [r];
    forall i, j | 0 <= i <= j < |revs'|
      ensures MaxUndoPair(revs', i, j)
    {
      if j < |revs| {
        assert MaxUndoPair(revs, i, j);
        assert revs'[i] == revs[i] && revs'[j] == revs[j];
      } else if i < |revs| {
        assert MaxUndoPair(revs, i, |revs| - 1);
        assert revs'[i] == revs[i] && revs'[j] == r;
      }
    }
  }

  /** No revision before the first candidate is an edit of a toggled group, so the replay in
      `compute_undo` may start there. */
  lemma CandidateSkipsUntoggled(revs: seq<Revision>, toggled: set<nat>)
    requires MaxUndoOrdered(revs)
    ensures forall j :: 0 <= j < FirstUndoCandidate(revs, toggled) && revs[j].edit.Edit? ==>
              revs[j].edit.undoGroup !in toggled
  {
    var r := FirstUndoCandidate(revs, toggled);
    forall j | 0 <= j < r && revs[j].edit.Edit?
      ensures revs[j].edit.undoGroup !in toggled
    {
      assert MaxUndoPair(revs, j, r - 1);
    }
  }

  /** The forward loop of `compute_undo`: edits of groups in `groups` have their inserts
      deleted, the others have their inserts kept and their deletes applied. */
  function ReplayForUndo(revs: seq<Revision>, ghost lens: seq<nat>, j: nat, mask: Subset, groups: set<nat>): (r: Subset)
    requires Chain(revs, lens) && j <= |revs| && |mask| == lens[j]
    ensures |r| == lens[|revs|]
    decreases |revs| - j
  {
    if j == |revs| then mask
    else
      assert j >= 1 ==> ChainStep(revs, lens, j);
      match revs[j].edit
      case Edit(g, ins, del) =>
        var next :=
          if g in groups then
            (if !IsEmpty(ins) then TransformUnion(mask, ins) else mask)
          else
            var expanded := if !IsEmpty(ins) then Expand(mask, ins) else mask;
            if !IsEmpty(del) then Union(expanded, del) else expanded;
        ReplayForUndo(revs, lens, j + 1, next, groups)
      case Undo(_, _) =>
        ReplayForUndo(revs, lens, j + 1, mask, groups)
  }

  /** The `cursor_after` scan of `compute_undo`: the cursor after the last edit of `group` in
      the run of that group's edits starting at `j` (undo revisions do not end the run). */
  function CursorAfterScan(revs: seq<Revision>, j: nat, group: nat, cursor: Option<CursorMode>): (r: Option<CursorMode>)
    requires j <= |revs|
    ensures r == cursor || exists k :: j <= k < |revs| && revs[k].edit.Edit? && revs[k].edit.undoGroup == group &&
                                       revs[k].cursorAfter == r
    decreases |revs| - j
  {
    if j == |revs| then cursor
    else match revs[j].edit
      case Edit(g, _, _) => if g == group then CursorAfterScan(revs, j + 1, group, revs[j].cursorAfter) else cursor
      case Undo(_, _) => CursorAfterScan(revs, j + 1, group, cursor)
  }

  /** `compute_undo`: the undo revision that makes exactly `groups` undone, and the new mask. */
  function ComputeUndo(revs: seq<Revision>, ghost lens: seq<nat>, dfu: Subset, undone: set<nat>,
                       groups: set<nat>, revCounter: nat): (r: (Revision, Subset))
    requires Chain(revs, lens) && |dfu| == lens[|revs|]
    ensures |r.1| == |dfu|
    ensures r.0.num == revCounter && r.0.maxUndoSoFar == revs[|revs| - 1].maxUndoSoFar
    ensures r.0.edit.Undo? && r.0.edit.toggledGroups == SymDiff(undone, groups)
    ensures StepOk(r.0.edit, |dfu|, |r.1|)
    // walking back over the new revision restores the old mask and the old undone groups
    ensures UnwindStep(r.0.edit, r.1, groups, true) == dfu && UndoneStep(r.0.edit, groups, true) == undone
    // asking for the groups that are already undone changes nothing
    ensures groups == undone ==> r.1 == dfu
  {
    var toggled := SymDiff(undone, groups);
    var first := FirstUndoCandidate(revs, toggled);
    var mask := ReplayForUndo(revs, lens, first, Unwind(revs, lens, first, |revs|, dfu, undone, false), groups);
    var cursorBefore := if first < |revs| then revs[first].cursorBefore else None;
    var cursorAfter :=
      if first < |revs| && revs[first].edit.Edit? then CursorAfterScan(revs, first, revs[first].edit.undoGroup, None)
      else None;
    assert Xor(mask, Xor(dfu, mask)) == dfu;
    assert SymDiff(groups, toggled) == undone;
    (Revision(revCounter, revs[|revs| - 1].maxUndoSoFar, Undo(toggled, Xor(dfu, mask)), cursorBefore, cursorAfter), mask)
  }

  // ---------------------------------------------------------------------------------------
  // Moving characters between text and tombstones.

  /** `shuffle_tombstones`: the tombstones under the new mask, computed by synthesizing a delta
      on the complemented masks and applying it to the old tombstones. */
  function ShuffleTombstones(text: Rope, tombstones: Rope, oldDfu: Subset, newDfu: Subset): (r: Rope)
    requires |oldDfu| == |newDfu| && |text| == CountFalse(oldDfu) && |tombstones| == CountTrue(oldDfu)
    ensures r == Take(Merge(text, tombstones, oldDfu), newDfu)
  {
    ComplementCounts(oldDfu);
    MergeComplement(text, tombstones, oldDfu);
    ApplySynthesize(tombstones, text, Complement(oldDfu), Complement(newDfu));
    KeepComplement(Merge(text, tombstones, oldDfu), newDfu);
    Apply(Synthesize(text, Complement(oldDfu), Complement(newDfu)), tombstones)
  }

  /** `shuffle`: the text and tombstones under the new mask. Both are projections of the same
      union string, so the union string is unchanged. */
  function Shuffle(text: Rope, tombstones: Rope, oldDfu: Subset, newDfu: Subset): (r: (Rope, Rope))
    requires |oldDfu| == |newDfu| && |text| == CountFalse(oldDfu) && |tombstones| == CountTrue(oldDfu)
    ensures r.0 == Keep(Merge(text, tombstones, oldDfu), newDfu)
    ensures r.1 == Take(Merge(text, tombstones, oldDfu), newDfu)
    ensures Merge(r.0, r.1, newDfu) == Merge(text, tombstones, oldDfu)
  {
    ApplySynthesize(text, tombstones, oldDfu, newDfu);
    MergeSplit(Merge(text, tombstones, oldDfu), newDfu);
    (Apply(Synthesize(tombstones, oldDfu, newDfu), text), ShuffleTombstones(text, tombstones, oldDfu, newDfu))
  }

  // ---------------------------------------------------------------------------------------
  // Edits.

  /** `mk_new_rev`: the revision for applying `delta` to the current text under `group`, with
      the new text, tombstones and mask. */
  function MkNewRev(revs: seq<Revision>, text: Rope, tombstones: Rope, dfu: Subset, undone: set<nat>,
                    group: nat, delta: Delta, revCounter: nat): (r: (Revision, Rope, Rope, Subset))
    requires |revs| >= 1 && |text| == CountFalse(dfu) && |tombstones| == CountTrue(dfu)
    requires DeltaOver(delta, |text|)
    ensures |r.3| == |dfu| + |delta.chars| && |r.1| == CountFalse(r.3) && |r.2| == CountTrue(r.3)
    ensures r.0.num == revCounter && r.0.maxUndoSoFar == Max(group, revs[|revs| - 1].maxUndoSoFar)
    ensures r.0.edit.Edit? && r.0.edit.undoGroup == group
    ensures StepOk(r.0.edit, |dfu|, |r.3|)
  {
    var n := ExpandInserts(delta.inserted, dfu);
    var expandedDeletes := Expand(delta.deletes, dfu);
    var newDeletes := if !IsEmpty(n) then Expand(expandedDeletes, n) else expandedDeletes;
    var textWithInserts := Merge(text, delta.chars, ShrinkInserts(n, dfu));
    var rebased := Expand(dfu, n);
    var newDfu := Union(rebased, if group in undone then n else newDeletes);
    var shuffled := Shuffle(textWithInserts, tombstones, rebased, newDfu);
    (Revision(revCounter, Max(group, revs[|revs| - 1].maxUndoSoFar), Edit(group, n, newDeletes), None, None),
     shuffled.0, shuffled.1, newDfu)
  }

  /** The union string after an edit is the old union string with the inserted characters
      interleaved at the new revision's inserted positions; nothing else is gained or lost. */
  lemma MkNewRevUnion(revs: seq<Revision>, text: Rope, tombstones: Rope, dfu: Subset, undone: set<nat>,
                      group: nat, delta: Delta, revCounter: nat)
    requires |revs| >= 1 && |text| == CountFalse(dfu) && |tombstones| == CountTrue(dfu)
    requires DeltaOver(delta, |text|)
    ensures var r := MkNewRev(revs, text, tombstones, dfu, undone, group, delta, revCounter);
            var ins := r.0.edit.inserts;
            |ins| == |r.3| && CountFalse(ins) == |dfu| && CountTrue(ins) == |delta.chars| &&
            Merge(r.1, r.2, r.3) == Merge(Merge(text, tombstones, dfu), delta.chars, ins) &&
            Keep(Merge(r.1, r.2, r.3), ins) == Merge(text, tombstones, dfu) &&
            Take(Merge(r.1, r.2, r.3), ins) == delta.chars
  {
    var n := ExpandInserts(delta.inserted, dfu);
    UnionAfterInsert(text, tombstones, delta.chars, dfu, n);
    KeepMerge(Merge(text, tombstones, dfu), delta.chars, n);
  }

  /** Under a live group the new text is the delta applied to the old text. */
  lemma MkNewRevLive(revs: seq<Revision>, text: Rope, tombstones: Rope, dfu: Subset, undone: set<nat>,
                     group: nat, delta: Delta, revCounter: nat)
    requires |revs| >= 1 && |text| == CountFalse(dfu) && |tombstones| == CountTrue(dfu)
    requires DeltaOver(delta, |text|)
    requires group !in undone
    ensures MkNewRev(revs, text, tombstones, dfu, undone, group, delta, revCounter).1 == Apply(delta, text)
  {
    var n := ExpandInserts(delta.inserted, dfu);
    var expandedDeletes := Expand(delta.deletes, dfu);
    var newDeletes := if !IsEmpty(n) then Expand(expandedDeletes, n) else expandedDeletes;
    if IsEmpty(n) {
      ExpandByEmpty(expandedDeletes, n);
    }
    assert newDeletes == Expand(expandedDeletes, n);
    var shrunk := ShrinkInserts(n, dfu);
    var textWithInserts := Merge(text, delta.chars, shrunk);
    var rebased := Expand(dfu, n);
    var newDfu := Union(rebased, newDeletes);
    var u := Merge(textWithInserts, tombstones, rebased);
    // the new text keeps what neither the old mask nor the new deletes remove
    KeepUnion(u, rebased, newDeletes);
    KeepMerge(textWithInserts, tombstones, rebased);
    ShrinkExpandCommute(expandedDeletes, dfu, n);
    ShrinkExpand(delta.deletes, dfu);
    ExpandInsertsRoundTrip(delta.inserted, dfu);
    assert Shrink(newDeletes, rebased) == Expand(delta.deletes, delta.inserted);
    assert Keep(u, newDfu) == Apply(delta, text);
  }

  /** Under an undone group the inserted characters go straight to the tombstones and the
      deletes are not applied: the text does not change. */
  lemma MkNewRevUndone(revs: seq<Revision>, text: Rope, tombstones: Rope, dfu: Subset, undone: set<nat>,
                       group: nat, delta: Delta, revCounter: nat)
    requires |revs| >= 1 && |text| == CountFalse(dfu) && |tombstones| == CountTrue(dfu)
    requires DeltaOver(delta, |text|)
    requires group in undone
    ensures MkNewRev(revs, text, tombstones, dfu, undone, group, delta, revCounter).1 == text
  {
    var n := ExpandInserts(delta.inserted, dfu);
    var shrunk := ShrinkInserts(n, dfu);
    var textWithInserts := Merge(text, delta.chars, shrunk);
    var rebased := Expand(dfu, n);
    var u := Merge(textWithInserts, tombstones, rebased);
    KeepUnion(u, rebased, n);
    KeepMerge(textWithInserts, tombstones, rebased);
    ExpandInsertsRoundTrip(delta.inserted, dfu);
    KeepMerge(text, delta.chars, delta.inserted);
  }

  /** The edit `mk_new_rev` records and the mask it leaves, spelled out. */
  lemma MkNewRevShape(revs: seq<Revision>, text: Rope, tombstones: Rope, dfu: Subset, undone: set<nat>,
                      group: nat, delta: Delta, revCounter: nat)
    requires |revs| >= 1 && |text| == CountFalse(dfu) && |tombstones| == CountTrue(dfu)
    requires DeltaOver(delta, |text|)
    ensures var r := MkNewRev(revs, text, tombstones, dfu, undone, group, delta, revCounter);
            var n := ExpandInserts(delta.inserted, dfu);
            var newDeletes := Expand(Expand(delta.deletes, dfu), n);
            r.0.edit == Edit(group, n, newDeletes) &&
            r.3 == Union(Expand(dfu, n), if group in undone then n else newDeletes)
  {
    var n := ExpandInserts(delta.inserted, dfu);
    var expandedDeletes := Expand(delta.deletes, dfu);
    if IsEmpty(n) {
      ExpandByEmpty(expandedDeletes, n);
    }
  }

  /** Walking back over the new edit revision, with the same undone groups, gives the old mask. */
  lemma MkNewRevUnwinds(revs: seq<Revision>, text: Rope, tombstones: Rope, dfu: Subset, undone: set<nat>,
                        group: nat, delta: Delta, revCounter: nat)
    requires |revs| >= 1 && |text| == CountFalse(dfu) && |tombstones| == CountTrue(dfu)
    requires DeltaOver(delta, |text|)
    ensures var r := MkNewRev(revs, text, tombstones, dfu, undone, group, delta, revCounter);
            UnwindStep(r.0.edit, r.3, undone, true) == dfu && UndoneStep(r.0.edit, undone, true) == undone
  {
    MkNewRevShape(revs, text, tombstones, dfu, undone, group, delta, revCounter);
    UnwindNewEdit(dfu, delta.deletes, ExpandInserts(delta.inserted, dfu));
  }

  // ---------------------------------------------------------------------------------------
  // Undoing and redoing one new group.

  /** The mask `compute_undo` gives: the forward replay from the first candidate, starting
      from the mask the backward walk reaches there. */
  lemma ComputeUndoMask(revs: seq<Revision>, lens: seq<nat>, dfu: Subset, undone: set<nat>,
                        groups: set<nat>, revCounter: nat, first: nat)
    requires Chain(revs, lens) && |dfu| == lens[|revs|]
    requires FirstUndoCandidate(revs, SymDiff(undone, groups)) == first
    ensures first <= |revs|
    ensures ComputeUndo(revs, lens, dfu, undone, groups, revCounter).1 ==
              ReplayForUndo(revs, lens, first, Unwind(revs, lens, first, |revs|, dfu, undone, false), groups)
  {
  }

  /** The first candidate for toggling only `group` is the revision after the last one whose
      `max_undo_so_far` is below `group`. */
  lemma FirstCandidateAt(revs: seq<Revision>, group: nat, k: nat)
    requires 1 <= k <= |revs| && revs[k - 1].maxUndoSoFar < group
    requires forall j :: k <= j < |revs| ==> revs[j].maxUndoSoFar >= group
    ensures FirstUndoCandidate(revs, {group}) == k
  {
    assert SetMin({group}) == group;
  }

  /** The same after an edit that opened `group` and one more revision above it. */
  lemma FirstCandidateTwo(revs: seq<Revision>, edit: Revision, next: Revision, group: nat)
    requires |revs| >= 1 && revs[|revs| - 1].maxUndoSoFar < group <= edit.maxUndoSoFar
    requires group <= next.maxUndoSoFar
    ensures FirstUndoCandidate((revs + [edit]) + [next], {group}) == |revs|
  {
    var revs2 := (revs + [edit]) + [next];
    assert revs2[|revs| - 1] == revs[|revs| - 1] && revs2[|revs|] == edit && revs2[|revs| + 1] == next;
    FirstCandidateAt(revs2, group, |revs|);
  }

  /** Undoing an edit that opened a new group (one above every `max_undo_so_far` before it):
      `compute_undo` with that group added to the undone ones starts its replay at the edit,
      and the mask it gives is the mask from before the edit with the inserted characters
      deleted. */
  lemma UndoNewGroup(revs: seq<Revision>, lens: seq<nat>, dfu: Subset, undone: set<nat>,
                     edit: Revision, dfu': Subset, undoCounter: nat)
    requires Chain(revs, lens) && |dfu| == lens[|revs|]
    requires edit.edit.Edit? && StepOk(edit.edit, |dfu|, |dfu'|)
    requires UnwindStep(edit.edit, dfu', undone, true) == dfu
    requires edit.edit.undoGroup !in undone
    requires revs[|revs| - 1].maxUndoSoFar < edit.edit.undoGroup <= edit.maxUndoSoFar
    ensures Chain(revs + [edit], lens + [|dfu'|])
    ensures ComputeUndo(revs + [edit], lens + [|dfu'|], dfu', undone, undone + {edit.edit.undoGroup}, undoCounter).1 ==
              TransformUnion(dfu, edit.edit.inserts)
  {
    var group, n := edit.edit.undoGroup, edit.edit.inserts;
    var revs1, lens1 := revs + [edit], lens + [|dfu'|];
    ChainAppend(revs, lens, edit, |dfu'|);
    assert SymDiff(undone, undone + {group}) == {group};
    FirstCandidateAt(revs1, group, |revs|);
    ComputeUndoMask(revs1, lens1, dfu', undone, undone + {group}, undoCounter, |revs|);
    assert Unwind(revs1, lens1, |revs|, |revs1|, dfu', undone, false) == dfu;
    if IsEmpty(n) {
      TransformUnionByEmpty(dfu, n);
    }
    assert ReplayForUndo(revs1, lens1, |revs|, dfu, undone + {group}) == TransformUnion(dfu, n);
  }

  /** One step of the forward replay over an edit of a group that stays live: its inserts are
      kept and its deletes applied. */
  lemma ReplayLiveEdit(revs: seq<Revision>, lens: seq<nat>, j: nat, mask: Subset, groups: set<nat>)
    requires Chain(revs, lens) && 1 <= j < |revs| && |mask| == lens[j]
    requires revs[j].edit.Edit? && revs[j].edit.undoGroup !in groups
    ensures ChainStep(revs, lens, j)
    ensures ReplayForUndo(revs, lens, j, mask, groups) ==
              ReplayForUndo(revs, lens, j + 1, Union(Expand(mask, revs[j].edit.inserts), revs[j].edit.deletes), groups)
  {
    assert ChainStep(revs, lens, j);
    var n, del := revs[j].edit.inserts, revs[j].edit.deletes;
    if IsEmpty(n) {
      ExpandByEmpty(mask, n);
    }
    if IsEmpty(del) {
      UnionWithEmpty(Expand(mask, n), del);
    }
  }

  /** Lifting a mask over an edit and then an undo revision that ends the log marks the
      edit's inserts deleted and leaves the rest of the mask as it is. */
  lemma LiftOverEditAndUndo(revs: seq<Revision>, lens: seq<nat>, k: nat, mask: Subset)
    requires Chain(revs, lens) && 1 <= k && k + 2 == |revs| && |mask| == lens[k]
    requires revs[k].edit.Edit? && revs[k + 1].edit.Undo?
    ensures ChainStep(revs, lens, k) && |mask| == CountFalse(revs[k].edit.inserts)
    ensures LiftThroughInserts(revs, lens, k, mask) == TransformUnion(mask, revs[k].edit.inserts)
  {
    assert ChainStep(revs, lens, k) && ChainStep(revs, lens, k + 1);
    var n := revs[k].edit.inserts;
    if IsEmpty(n) {
      TransformUnionByEmpty(mask, n);
    }
    assert LiftThroughInserts(revs, lens, k + 1, TransformUnion(mask, n)) == TransformUnion(mask, n);
  }

  /** Walking back, without inverting, over an undo revision and then an edit of an undone
      group drops the edit's inserts and leaves the rest of the mask as it is. */
  lemma UnwindEditUndo(revs: seq<Revision>, lens: seq<nat>, k: nat, mask: Subset, undone: set<nat>)
    requires Chain(revs, lens) && 1 <= k && k + 2 <= |revs| && |mask| == lens[k + 2]
    requires revs[k].edit.Edit? && revs[k].edit.undoGroup in undone && revs[k + 1].edit.Undo?
    ensures ChainStep(revs, lens, k) && ChainStep(revs, lens, k + 1)
    ensures Unwind(revs, lens, k, k + 2, mask, undone, false) == Shrink(mask, revs[k].edit.inserts)
  {
    assert ChainStep(revs, lens, k) && ChainStep(revs, lens, k + 1);
    assert Unwind(revs, lens, k, k + 2, mask, undone, false) == Unwind(revs, lens, k, k + 1, mask, undone, false);
  }

  /** Redoing that group right after undoing it: `compute_undo` with the group taken out of
      the undone ones again walks back over the undo revision and the edit, replays the edit
      as live, and gives the mask the edit left. */
  lemma RedoNewGroup(revs: seq<Revision>, lens: seq<nat>, dfu: Subset, undone: set<nat>,
                     edit: Revision, dfu': Subset, undo: Revision, dfu'': Subset, redoCounter: nat)
    requires Chain(revs, lens) && |dfu| == lens[|revs|]
    requires edit.edit.Edit? && StepOk(edit.edit, |dfu|, |dfu'|)
    requires edit.edit.undoGroup !in undone
    requires revs[|revs| - 1].maxUndoSoFar < edit.edit.undoGroup <= edit.maxUndoSoFar
    requires dfu' == Union(Expand(dfu, edit.edit.inserts), edit.edit.deletes)
    requires undo.edit.Undo? && StepOk(undo.edit, |dfu'|, |dfu''|) && edit.edit.undoGroup <= undo.maxUndoSoFar
    requires dfu'' == TransformUnion(dfu, edit.edit.inserts)
    ensures Chain((revs + [edit]) + [undo], (lens + [|dfu'|]) + [|dfu''|])
    ensures ComputeUndo((revs + [edit]) + [undo], (lens + [|dfu'|]) + [|dfu''|], dfu'', undone + {edit.edit.undoGroup},
                        undone, redoCounter).1 == dfu'
  {
    var group, n, del := edit.edit.undoGroup, edit.edit.inserts, edit.edit.deletes;
    var revs2, lens2 := (revs + [edit]) + [undo], (lens + [|dfu'|]) + [|dfu''|];
    ChainAppend(revs, lens, edit, |dfu'|);
    ChainAppend(revs + [edit], lens + [|dfu'|], undo, |dfu''|);
    FirstCandidateTwo(revs, edit, undo, group);
    assert ChainStep(revs2, lens2, |revs|);
    RedoAt(revs2, lens2, |revs|, dfu, dfu'', undone, redoCounter);
  }

  /** The same redo, stated at the index `k` of the edit in a log that ends with the undo. */
  lemma RedoAt(revs: seq<Revision>, lens: seq<nat>, k: nat, dfu: Subset, mask: Subset, undone: set<nat>, redoCounter: nat)
    requires Chain(revs, lens) && 1 <= k && k + 2 == |revs| && |mask| == lens[k + 2] && ChainStep(revs, lens, k)
    requires revs[k].edit.Edit? && revs[k].edit.undoGroup !in undone && revs[k + 1].edit.Undo?
    requires FirstUndoCandidate(revs, {revs[k].edit.undoGroup}) == k
    requires |dfu| == CountFalse(revs[k].edit.inserts) && mask == TransformUnion(dfu, revs[k].edit.inserts)
    ensures ComputeUndo(revs, lens, mask, undone + {revs[k].edit.undoGroup}, undone, redoCounter).1 ==
              Union(Expand(dfu, revs[k].edit.inserts), revs[k].edit.deletes)
  {
    var group := revs[k].edit.undoGroup;
    assert SymDiff(undone + {group}, undone) == {group};
    ComputeUndoMask(revs, lens, mask, undone + {group}, undone, redoCounter, k);
    RedoReplay(revs, lens, k, dfu, mask, undone);
    var back := Unwind(revs, lens, k, |revs|, mask, undone + {group}, false);
    assert ComputeUndo(revs, lens, mask, undone + {group}, undone, redoCounter).1 == ReplayForUndo(revs, lens, k, back, undone);
    assert ReplayForUndo(revs, lens, k, back, undone) == Union(Expand(dfu, revs[k].edit.inserts), revs[k].edit.deletes);
  }

  /** The masks of that redo: back over the undo revision and the undone edit, then forward
      over the edit replayed as live, gives the old mask lifted over the inserts plus the
      edit's deletes. */
  lemma RedoReplay(revs: seq<Revision>, lens: seq<nat>, k: nat, dfu: Subset, mask: Subset, undone: set<nat>)
    requires Chain(revs, lens) && 1 <= k && k + 2 == |revs| && |mask| == lens[k + 2]
    requires revs[k].edit.Edit? && revs[k].edit.undoGroup !in undone && revs[k + 1].edit.Undo?
    requires |dfu| == CountFalse(revs[k].edit.inserts) && mask == TransformUnion(dfu, revs[k].edit.inserts)
    ensures ChainStep(revs, lens, k)
    ensures ReplayForUndo(revs, lens, k, Unwind(revs, lens, k, |revs|, mask, undone + {revs[k].edit.undoGroup}, false), undone) ==
              Union(Expand(dfu, revs[k].edit.inserts), revs[k].edit.deletes)
  {
    var n := revs[k].edit.inserts;
    ShrinkExpand(dfu, n);
    UnwindEditUndo(revs, lens, k, mask, undone + {revs[k].edit.undoGroup});
    ReplayLiveEdit(revs, lens, k, dfu, undone);
    var live := Union(Expand(dfu, n), revs[k].edit.deletes);
    ReplayPastUndo(revs, lens, k + 1, live, undone);
  }

  /** The forward replay passes over an undo revision without touching the mask. */
  lemma ReplayPastUndo(revs: seq<Revision>, lens: seq<nat>, j: nat, mask: Subset, groups: set<nat>)
    requires Chain(revs, lens) && 1 <= j < |revs| && |mask| == lens[j] && revs[j].edit.Undo?
    ensures ChainStep(revs, lens, j) && |mask| == lens[j + 1]
    ensures ReplayForUndo(revs, lens, j, mask, groups) == ReplayForUndo(revs, lens, j + 1, mask, groups)
  {
    assert ChainStep(revs, lens, j);
  }
}
