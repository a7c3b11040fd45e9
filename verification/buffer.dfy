/**
  The text buffer of crates/doc/src/lines/buffer/mod.rs: the visible text, the tombstones
  (every character ever deleted), the mask saying which characters of the union string are
  deleted, the append-only revision log, and the undo stack (`cur_undo`, `live_undos`,
  `undos`) that decides which undo groups are currently undone.
*/
module TextBuffer {
  import opened Wrappers
  import opened Subsets
  import opened History
  import opened EditDelta
  import opened BufferLog

  /** The kind of edit the caller says it is making. `Caller` stands for the kinds that only
      matter to `breaks_undo_group`. */
  datatype EditType = Other | UndoEdit | RedoEdit | NormalizeLineEndings | Caller(kind: nat)

  /** `newRev`, with the text, tombstones and mask after it, is what `mk_new_rev` makes of
      `delta` under the undo group the revision names (see `BufferLog.EditMade`). */
  ghost predicate Added(revs: seq<Revision>, lens: seq<nat>, masks: seq<Subset>, undoneAt: seq<set<nat>>,
                        dfu: Subset, undone: set<nat>, text: Rope, tombstones: Rope, revCounter: nat,
                        undoGroupId: nat, delta: Delta, newRev: Revision, newText: Rope, newTombstones: Rope,
                        newDfu: Subset)
  {
    newRev.edit.Edit? &&
    EditMade(revs, lens, masks, undoneAt, dfu, undone, text, tombstones, revCounter, undoGroupId,
             newRev.edit.undoGroup, delta, newRev, newText, newTombstones, newDfu)
  }

  /** `newRev`, with the text, tombstones and mask after it, is what `undo` makes of `groups`
      (see `BufferLog.UndoMade`). */
  ghost predicate Undone(revs: seq<Revision>, lens: seq<nat>, masks: seq<Subset>, undoneAt: seq<set<nat>>,
                         dfu: Subset, undone: set<nat>, text: Rope, tombstones: Rope, revCounter: nat,
                         undoGroupId: nat, groups: set<nat>, delta: Delta, newRev: Revision, newText: Rope,
                         newTombstones: Rope, newDfu: Subset)
  {
    UndoMade(revs, lens, masks, undoneAt, dfu, undone, text, tombstones, revCounter, undoGroupId,
             groups, delta, newRev, newText, newTombstones, newDfu)
  }

  class Buffer {
    var revCounter: nat
    var pristineRevId: nat
    /** The value last published through `atomic_rev`. */
    var atomicRev: nat

    var text: Rope
    var revs: seq<Revision>
    var curUndo: nat
    var undos: set<nat>
    var undoGroupId: nat
    var liveUndos: seq<nat>
    var deletesFromUnion: Subset
    var undoneGroups: set<nat>
    var tombstones: Rope
    var thisEditType: EditType
    var lastEditType: EditType

    /** `EditType::breaks_undo_group(this, last)`, from a file that is not part of this model. */
    const breaksUndoGroup: (EditType, EditType) -> bool

    /** The union length around each revision (see `History.Chain`). */
    ghost var lens: seq<nat>
    /** The deletion mask right after each revision. */
    ghost var masks: seq<Subset>
    /** The undone groups right after each revision. */
    ghost var undoneAt: seq<set<nat>>

    /** Everything but the agreement between `undone_groups` and `undos`, which `do_undo` and
        `do_redo` break for the moment between changing `undos` and calling `undo`. */
    ghost predicate Consistent()
      reads this`revs, this`lens, this`masks, this`undoneAt, this`deletesFromUnion, this`undoneGroups,
            this`text, this`tombstones, this`revCounter, this`undoGroupId, this`curUndo, this`liveUndos, this`undos
    {
      Logged(revs, lens, masks, undoneAt, deletesFromUnion, undoneGroups, text, tombstones, revCounter, undoGroupId) &&
      UndoStack(curUndo, liveUndos, undos, undoGroupId)
    }

    ghost predicate Valid()
      reads this`revs, this`lens, this`masks, this`undoneAt, this`deletesFromUnion, this`undoneGroups,
            this`text, this`tombstones, this`revCounter, this`undoGroupId, this`curUndo, this`liveUndos, this`undos
    {
      Consistent() && undoneGroups == undos
    }

    /** The log with one more revision, leaving the given text, tombstones, mask and undone
        groups, is still in order. */
    ghost predicate LogsNext(newRev: Revision, newText: Rope, newTombstones: Rope, newDfu: Subset, newUndone: set<nat>)
      reads this`revs, this`lens, this`masks, this`undoneAt, this`revCounter, this`undoGroupId
    {
      Logged(revs + [newRev], lens + [|newDfu|], masks + [newDfu], undoneAt + [newUndone], newDfu, newUndone,
             newText, newTombstones, revCounter + 1, undoGroupId)
    }

    /** `newRev` with the text, tombstones and mask after it is what `mk_new_rev` makes of
        `delta` under `group` (see `BufferLog.EditMade`). */
    ghost predicate MadeEdit(group: nat, delta: Delta, newRev: Revision, newText: Rope, newTombstones: Rope, newDfu: Subset)
      reads this`revs, this`lens, this`masks, this`undoneAt, this`deletesFromUnion, this`undoneGroups,
            this`text, this`tombstones, this`revCounter, this`undoGroupId
    {
      EditMade(revs, lens, masks, undoneAt, deletesFromUnion, undoneGroups, text, tombstones, revCounter, undoGroupId,
               group, delta, newRev, newText, newTombstones, newDfu)
    }

    /** `newRev` and `newDfu` are what `compute_undo` makes of `groups`, and with the text and
        tombstones `undo` derives from them the log stays in order (see `BufferLog.UndoMade`). */
    ghost predicate UndoneBy(groups: set<nat>, newRev: Revision, newDfu: Subset)
      reads this`revs, this`lens, this`masks, this`undoneAt, this`deletesFromUnion, this`undoneGroups,
            this`text, this`tombstones, this`revCounter, this`undoGroupId
    {
      |newDfu| == |deletesFromUnion| && |text| == CountFalse(deletesFromUnion) &&
      |tombstones| == CountTrue(deletesFromUnion) &&
      UndoMade(revs, lens, masks, undoneAt, deletesFromUnion, undoneGroups, text, tombstones, revCounter, undoGroupId,
               groups, Synthesize(tombstones, deletesFromUnion, newDfu), newRev,
               Apply(Synthesize(tombstones, deletesFromUnion, newDfu), text),
               ShuffleTombstones(text, tombstones, deletesFromUnion, newDfu), newDfu)
    }

    /** The union string: text and tombstones interleaved by the mask. */
    ghost function UnionString(): Rope
      reads this`text, this`tombstones, this`deletesFromUnion
      requires |text| == CountFalse(deletesFromUnion) && |tombstones| == CountTrue(deletesFromUnion)
    {
      Merge(text, tombstones, deletesFromUnion)
    }

    /** `Buffer::new` (line endings are not normalized in this model). */
    constructor(initial: Rope, breaks: (EditType, EditType) -> bool)
      ensures Valid()
      ensures text == initial && tombstones == [] && deletesFromUnion == NewSubset(|initial|)
      ensures revs == [Revision(0, 0, Contents.Undo({}, []), None, None)] && Rev() == 0
      ensures revCounter == 1 && pristineRevId == 0 && atomicRev == 0
      ensures curUndo == 1 && liveUndos == [0] && undoGroupId == 1 && undos == {} && undoneGroups == {}
      ensures thisEditType == Other && lastEditType == Other && breaksUndoGroup == breaks
    {
      text := initial;
      revCounter := 1;
      pristineRevId := 0;
      atomicRev := 0;
      revs := [Revision(0, 0, Contents.Undo({}, []), None, None)];
      curUndo := 1;
      undos := {};
      undoGroupId := 1;
      liveUndos := [0];
      deletesFromUnion := NewSubset(|initial|);
      undoneGroups := {};
      tombstones := [];
      thisEditType := Other;
      lastEditType := Other;
      breaksUndoGroup := breaks;
      lens := [|initial|, |initial|];
      masks := [NewSubset(|initial|)];
      undoneAt := [{}];
      new;
      CountFalseAll(|initial|);
    }

    /** `rev`: the number of the newest revision, the largest in the log. */
    function Rev(): (r: nat)
      reads this`revs, this`revCounter
      requires Numbered(revs, revCounter)
      ensures r == revs[|revs| - 1].num
    {
      revs[|revs| - 1].num
    }

    /** `is_equivalent_revision` on the buffer's state. */
    function IsEquivalentRevision(baseRev: nat, otherRev: nat): (r: bool)
      reads this`revs, this`lens, this`masks, this`undoneAt, this`deletesFromUnion, this`undoneGroups,
            this`text, this`tombstones, this`revCounter, this`undoGroupId, this`curUndo, this`liveUndos, this`undos
      requires Consistent()
      ensures r <==> FindRev(revs, baseRev).Some? && FindRev(revs, otherRev).Some? &&
                     DeletesFromCurUnionForIndex(revs, lens, deletesFromUnion, undoneGroups, FindRev(revs, baseRev).value) ==
                     DeletesFromCurUnionForIndex(revs, lens, deletesFromUnion, undoneGroups, FindRev(revs, otherRev).value)
    {
      History.IsEquivalentRevision(revs, lens, deletesFromUnion, undoneGroups, baseRev, otherRev)
    }

    /** `is_pristine`: the revision marked pristine is in the log and its mask, brought onto the
        current union, is the head revision's. */
    function IsPristine(): (r: bool)
      reads this`revs, this`lens, this`masks, this`undoneAt, this`deletesFromUnion, this`undoneGroups,
            this`text, this`tombstones, this`revCounter, this`undoGroupId, this`curUndo, this`liveUndos, this`undos, this`pristineRevId
      requires Consistent()
      ensures r <==> FindRev(revs, pristineRevId).Some? &&
                     DeletesFromCurUnionForIndex(revs, lens, deletesFromUnion, undoneGroups, FindRev(revs, pristineRevId).value) ==
                     DeletesFromCurUnionForIndex(revs, lens, deletesFromUnion, undoneGroups, |revs| - 1)
    {
      assert FindRev(revs, Rev()) == Some(|revs| - 1);
      IsEquivalentRevision(pristineRevId, Rev())
    }

    /** `set_pristine`: afterwards the buffer is pristine. */
    method SetPristine()
      requires Consistent()
      modifies this`pristineRevId
      ensures Consistent()
      ensures old(undoneGroups == undos) ==> Valid()
      ensures pristineRevId == Rev()
      ensures IsPristine()
    {
      pristineRevId := Rev();
      assert FindRev(revs, pristineRevId) == Some(|revs| - 1);
    }

    /** `set_cursor_before`: only the newest revision's `cursor_before` changes. */
    method SetCursorBefore(cursor: CursorMode)
      requires Valid()
      modifies this`revs
      ensures Valid()
      ensures revs == old(revs)[|old(revs)| - 1 := old(revs)[|old(revs)| - 1].(cursorBefore := Some(cursor))]
    {
      var last := |revs| - 1;
      LoggedSameEdits(revs, revs[last := revs[last].(cursorBefore := Some(cursor))], lens, masks, undoneAt,
                      deletesFromUnion, undoneGroups, text, tombstones, revCounter, undoGroupId);
      revs := revs[last := revs[last].(cursorBefore := Some(cursor))];
    }

    /** `set_cursor_after`: only the newest revision's `cursor_after` changes. */
    method SetCursorAfter(cursor: CursorMode)
      requires Valid()
      modifies this`revs
      ensures Valid()
      ensures revs == old(revs)[|old(revs)| - 1 := old(revs)[|old(revs)| - 1].(cursorAfter := Some(cursor))]
    {
      var last := |revs| - 1;
      LoggedSameEdits(revs, revs[last := revs[last].(cursorAfter := Some(cursor))], lens, masks, undoneAt,
                      deletesFromUnion, undoneGroups, text, tombstones, revCounter, undoGroupId);
      revs := revs[last := revs[last].(cursorAfter := Some(cursor))];
    }

    /** `reset_edit_type`. */
    method ResetEditType()
      modifies this`lastEditType
      ensures lastEditType == Other
    {
      lastEditType := Other;
    }

    /** What the log says about the past: walking back from the present recovers, for every
        revision, the deletion mask the buffer had right after it. */
    lemma HistoryRecovered(i: nat)
      requires Consistent() && i < |revs|
      ensures DeletesFromUnionForIndex(revs, lens, deletesFromUnion, undoneGroups, i) == masks[i]
      ensures i == |revs| - 1 ==> masks[i] == deletesFromUnion
    {
      assert RecordedAt(revs, lens, masks, undoneAt, deletesFromUnion, undoneGroups, i);
    }

    /** `calculate_undo_group`: keep adding to the newest live group unless the edit type
        breaks the group; otherwise drop the redo entries above `cur_undo` and open a new group. */
    method CalculateUndoGroup() returns (group: nat)
      requires Valid()
      modifies this`liveUndos, this`curUndo, this`undoGroupId
      ensures Valid()
      ensures group < undoGroupId
      ensures var reuse := |old(liveUndos)| > 0 && !breaksUndoGroup(thisEditType, lastEditType);
              (reuse ==> group == old(liveUndos)[|old(liveUndos)| - 1] && liveUndos == old(liveUndos) &&
                         curUndo == old(curUndo) && undoGroupId == old(undoGroupId)) &&
              (!reuse ==> group == old(undoGroupId) && liveUndos == old(liveUndos)[..old(curUndo)] + [group] &&
                          curUndo == old(curUndo) + 1 && undoGroupId == old(undoGroupId) + 1)
    {
      var hasUndos := |liveUndos| > 0;
      var isUnbrokenGroup := !breaksUndoGroup(thisEditType, lastEditType);
      if hasUndos && isUnbrokenGroup {
        group := liveUndos[|liveUndos| - 1];
      } else {
        group := undoGroupId;
        liveUndos := liveUndos[..curUndo] + [group];
        curUndo := curUndo + 1;
        undoGroupId := undoGroupId + 1;
      }
    }

    /** `apply_edit`: append the revision and install the new text, tombstones and mask. The
        invalidated-lines summary it also computes is not modelled. */
    method ApplyEdit(newRev: Revision, newText: Rope, newTombstones: Rope, newDfu: Subset)
      requires LogsNext(newRev, newText, newTombstones, newDfu, undoneGroups)
      requires UndoStack(curUndo, liveUndos, undos, undoGroupId)
      modifies this`revCounter, this`revs, this`text, this`tombstones, this`deletesFromUnion,
               this`lens, this`masks, this`undoneAt
      ensures Consistent()
      ensures revCounter == old(revCounter) + 1 && revs == old(revs) + [newRev]
      ensures text == newText && tombstones == newTombstones && deletesFromUnion == newDfu
      ensures masks == old(masks) + [newDfu] && undoneAt == old(undoneAt) + [undoneGroups]
    {
      revCounter := revCounter + 1;
      revs := revs + [newRev];
      text := newText;
      tombstones := newTombstones;
      deletesFromUnion := newDfu;
      lens := lens + [|newDfu|];
      masks := masks + [newDfu];
      undoneAt := undoneAt + [undoneGroups];
    }

    /** `add_delta`: record `delta` as one more edit of the current undo group. If that group
        is live the text becomes the delta applied to it; if it is undone the text stays as it
        is. Either way the inserted characters join the union string. */
    method AddDelta(delta: Delta) returns (oldText: Rope, applied: Delta)
      requires Valid() && DeltaOver(delta, |text|)
      modifies this`liveUndos, this`curUndo, this`undoGroupId, this`lastEditType, this`atomicRev, this`revCounter, this`revs, this`text, this`tombstones, this`deletesFromUnion,
               this`lens, this`masks, this`undoneAt
      ensures Valid()
      ensures oldText == old(text) && applied == delta
      ensures |revs| == |old(revs)| + 1 && revs[..|old(revs)|] == old(revs)
      ensures revCounter == old(revCounter) + 1 && atomicRev == old(revCounter) && lastEditType == old(thisEditType)
      ensures Added(old(revs), old(lens), old(masks), old(undoneAt), old(deletesFromUnion), undoneGroups, old(text),
                    old(tombstones), old(revCounter), undoGroupId, delta, revs[|revs| - 1], text, tombstones, deletesFromUnion)
    {
      oldText := text;
      var group := CalculateUndoGroup();
      assert UndoStack(curUndo, liveUndos, undos, undoGroupId);
      lastEditType := thisEditType;
      var newRev, newText, newTombstones, newDfu := MkNewRev(group, delta);
      ApplyEdit(newRev, newText, newTombstones, newDfu);
      applied := delta;
    }

    /** `mk_new_rev`: the revision recording `delta` as an edit of `undoGroup`, with the text,
        tombstones and mask after it (computed by `History.MkNewRev`). The new revision keeps the
        log in order; the text is the delta applied to the old text when the group is live and
        the old text when it is undone; the union string gains exactly the inserted characters. */
    method MkNewRev(undoGroup: nat, delta: Delta) returns (newRev: Revision, newText: Rope, newTombstones: Rope, newDfu: Subset)
      requires Logged(revs, lens, masks, undoneAt, deletesFromUnion, undoneGroups, text, tombstones, revCounter, undoGroupId)
      requires DeltaOver(delta, |text|) && undoGroup < undoGroupId
      modifies this`atomicRev
      ensures atomicRev == revCounter
      ensures newRev.edit.Edit? && newRev.edit.undoGroup == undoGroup
      ensures Added(revs, lens, masks, undoneAt, deletesFromUnion, undoneGroups, text, tombstones, revCounter,
                    undoGroupId, delta, newRev, newText, newTombstones, newDfu)
      ensures LogsNext(newRev, newText, newTombstones, newDfu, undoneGroups)
      ensures old(UndoStack(curUndo, liveUndos, undos, undoGroupId)) ==> UndoStack(curUndo, liveUndos, undos, undoGroupId)
    {
      var r := History.MkNewRev(revs, text, tombstones, deletesFromUnion, undoneGroups, undoGroup, delta, revCounter);
      MkNewRevMade(revs, lens, masks, undoneAt, deletesFromUnion, undoneGroups, text, tombstones, revCounter, undoGroupId,
                   undoGroup, delta);
      atomicRev := revCounter;
      newRev, newText, newTombstones, newDfu := r.0, r.1, r.2, r.3;
    }

    /** `edit`: sort the replacements, build one delta from them and add it. Line endings of
        the inserted strings are not normalized in this model. */
    method Edit(edits: seq<Replacement>, editType: EditType) returns (oldText: Rope, delta: Delta)
      requires Valid() && Fits(SortReplacements(edits), 0, |text|)
      modifies this`thisEditType, this`liveUndos, this`curUndo, this`undoGroupId, this`lastEditType,
               this`atomicRev, this`revCounter, this`revs, this`text, this`tombstones, this`deletesFromUnion,
               this`lens, this`masks, this`undoneAt
      ensures Valid()
      ensures oldText == old(text) && thisEditType == editType
      ensures |revs| == |old(revs)| + 1 && revs[..|old(revs)|] == old(revs) && revs[|revs| - 1].edit.Edit?
      ensures revs[|revs| - 1].edit.undoGroup !in undoneGroups ==>
                text == Replaced(old(text), SortReplacements(edits), 0)
      ensures revs[|revs| - 1].edit.undoGroup in undoneGroups ==> text == old(text)
    {
      delta := BuildDelta(SortReplacements(edits), 0, |text|);
      ApplyBuildDelta(text, SortReplacements(edits), 0);
      assert text[0..] == text;
      thisEditType := editType;
      oldText, delta := AddDelta(delta);
    }

    /** `reload`: replace the whole text with `content` as one edit of type `Other`. Line
        endings are not normalized in this model. */
    method Reload(content: Rope, setPristine: bool) returns (oldText: Rope, delta: Delta)
      requires Valid()
      modifies this`thisEditType, this`liveUndos, this`curUndo, this`undoGroupId, this`lastEditType, this`pristineRevId,
               this`atomicRev, this`revCounter, this`revs, this`text, this`tombstones, this`deletesFromUnion,
               this`lens, this`masks, this`undoneAt
      ensures Valid()
      ensures oldText == old(text) && thisEditType == Other
      ensures |revs| == |old(revs)| + 1 && revs[..|old(revs)|] == old(revs) && revs[|revs| - 1].edit.Edit?
      ensures revs[|revs| - 1].edit.undoGroup !in undoneGroups ==> text == content
      ensures setPristine ==> pristineRevId == Rev()
      ensures !setPristine ==> pristineRevId == old(pristineRevId)
    {
      delta := SimpleEdit(0, |text|, content, |text|);
      ApplySimpleEdit(0, |text|, content, text);
      assert text[..0] + content + text[|text|..] == content;
      thisEditType := Other;
      oldText, delta := AddDelta(delta);
      if setPristine {
        SetPristine();
      }
    }

    /** `init_content`: load `content` into an empty buffer as an edit of group 0, which is never
        undone, and mark the result pristine. */
    method InitContent(content: Rope)
      requires Valid() && (content != [] ==> text == [])
      modifies this`pristineRevId, this`atomicRev, this`revCounter, this`revs, this`text, this`tombstones, this`deletesFromUnion,
               this`lens, this`masks, this`undoneAt
      ensures Valid()
      ensures content != [] ==> text == content && |revs| == |old(revs)| + 1 && revs[|revs| - 1].edit.Edit? &&
                                revs[|revs| - 1].edit.undoGroup == 0
      ensures content == [] ==> text == old(text) && revs == old(revs)
      ensures IsPristine()
    {
      if content != [] {
        var delta := SimpleEdit(0, 0, content, 0);
        ApplySimpleEdit(0, 0, content, text);
        assert text[..0] + content + text[0..] == content;
        var newRev, newText, newTombstones, newDfu := MkNewRev(0, delta);
        ApplyEdit(newRev, newText, newTombstones, newDfu);
      }
      SetPristine();
    }

    /** `undo`: make exactly `groups` undone. The new revision and mask are what
        `History.ComputeUndo` gives, the text becomes the synthesized delta applied to the old
        text, and the union string does not change (see `BufferLog.UndoMade`). */
    method Undo(groups: set<nat>) returns (oldText: Rope, delta: Delta,
                                           cursorBefore: Option<CursorMode>, cursorAfter: Option<CursorMode>)
      requires Consistent() && groups == undos
      modifies this`undoneGroups, this`atomicRev, this`revCounter, this`revs, this`text, this`tombstones, this`deletesFromUnion,
               this`lens, this`masks, this`undoneAt
      ensures Valid()
      ensures undoneGroups == groups && oldText == old(text)
      ensures |revs| == |old(revs)| + 1 && revs == old(revs) + [revs[|revs| - 1]]
      ensures cursorBefore == revs[|revs| - 1].cursorBefore && cursorAfter == revs[|revs| - 1].cursorAfter
      ensures Undone(old(revs), old(lens), old(masks), old(undoneAt), old(deletesFromUnion), old(undoneGroups), old(text),
                     old(tombstones), old(revCounter), undoGroupId, groups, delta, revs[|revs| - 1], text, tombstones,
                     deletesFromUnion)
    {
      oldText := text;
      var newRev, newDfu := ComputeUndo(groups);
      delta := Synthesize(tombstones, deletesFromUnion, newDfu);
      var newText := Apply(delta, text);
      var newTombstones := ShuffleTombstones(text, tombstones, deletesFromUnion, newDfu);
      assert Undone(revs, lens, masks, undoneAt, deletesFromUnion, undoneGroups, text, tombstones, revCounter, undoGroupId,
                    groups, delta, newRev, newText, newTombstones, newDfu);
      undoneGroups := groups;
      cursorBefore, cursorAfter := newRev.cursorBefore, newRev.cursorAfter;
      ApplyEdit(newRev, newText, newTombstones, newDfu);
    }

    /** `compute_undo`: the undo revision that makes exactly `groups` undone, and the mask after
        it (computed by `History.ComputeUndo`); the text and tombstones `undo` derives from them
        keep the log in order (see `BufferLog.UndoMade`). */
    method ComputeUndo(groups: set<nat>) returns (newRev: Revision, newDfu: Subset)
      requires Logged(revs, lens, masks, undoneAt, deletesFromUnion, undoneGroups, text, tombstones, revCounter, undoGroupId)
      modifies this`atomicRev
      ensures atomicRev == revCounter
      ensures UndoneBy(groups, newRev, newDfu)
    {
      var r := History.ComputeUndo(revs, lens, deletesFromUnion, undoneGroups, groups, revCounter);
      ComputeUndoMade(revs, lens, masks, undoneAt, deletesFromUnion, undoneGroups, text, tombstones, revCounter,
                      undoGroupId, groups);
      atomicRev := revCounter;
      newRev, newDfu := r.0, r.1;
    }

    /** `do_undo`: undo the newest group below `cur_undo`, or do nothing when there is none. */
    method DoUndo() returns (result: Option<(Rope, Delta, Option<CursorMode>)>)
      requires Valid()
      modifies this`curUndo, this`undos, this`lastEditType, this`undoneGroups, this`atomicRev, this`revCounter,
               this`revs, this`text, this`tombstones, this`deletesFromUnion, this`lens, this`masks, this`undoneAt
      ensures Valid()
      ensures old(curUndo) <= 1 ==> result.None? && unchanged(this)
      ensures old(curUndo) > 1 ==>
                result.Some? && curUndo == old(curUndo) - 1 && liveUndos == old(liveUndos) &&
                undos == old(undos) + {old(liveUndos)[old(curUndo) - 1]} && undoneGroups == undos &&
                lastEditType == UndoEdit && |revs| == |old(revs)| + 1 && revs[|revs| - 1].edit.Undo? &&
                UnionString() == old(UnionString())
    {
      if curUndo <= 1 {
        return None;
      }
      curUndo := curUndo - 1;
      undos := undos + {liveUndos[curUndo]};
      lastEditType := UndoEdit;
      var text, delta, cursorBefore, _ := Undo(undos);
      result := Some((text, delta, cursorBefore));
    }

    /** `do_redo`: redo the group at `cur_undo`, or do nothing when there is none. */
    method DoRedo() returns (result: Option<(Rope, Delta, Option<CursorMode>)>)
      requires Valid()
      modifies this`curUndo, this`undos, this`lastEditType, this`undoneGroups, this`atomicRev, this`revCounter,
               this`revs, this`text, this`tombstones, this`deletesFromUnion, this`lens, this`masks, this`undoneAt
      ensures Valid()
      ensures old(curUndo) >= |old(liveUndos)| ==> result.None? && unchanged(this)
      ensures old(curUndo) < |old(liveUndos)| ==>
                result.Some? && curUndo == old(curUndo) + 1 && liveUndos == old(liveUndos) &&
                undos == old(undos) - {old(liveUndos)[old(curUndo)]} && undoneGroups == undos &&
                lastEditType == RedoEdit && |revs| == |old(revs)| + 1 && revs[|revs| - 1].edit.Undo? &&
                UnionString() == old(UnionString())
    {
      if curUndo >= |liveUndos| {
        return None;
      }
      undos := undos - {liveUndos[curUndo]};
      curUndo := curUndo + 1;
      lastEditType := RedoEdit;
      var text, delta, _, cursorAfter := Undo(undos);
      result := Some((text, delta, cursorAfter));
    }
  }

}
