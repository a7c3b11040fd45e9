/** The ghost bookkeeping behind the text buffer's revision log. */
module BufferLog {
  import opened Wrappers
  import opened Subsets
  import opened History

  /** The undo stack: `live_undos` starts with the group 0 that is never undone, is strictly
      increasing, and exactly its entries from `cur_undo` on are undone. */
  ghost predicate UndoStack(curUndo: nat, liveUndos: seq<nat>, undos: set<nat>, undoGroupId: nat)
  {
    1 <= curUndo <= |liveUndos| && liveUndos[0] == 0 &&
    (forall i, j :: 0 <= i < j < |liveUndos| ==> liveUndos[i] < liveUndos[j]) &&
    liveUndos[|liveUndos| - 1] < undoGroupId &&
    (forall g :: g in undos ==> 1 <= g < undoGroupId) &&
    (forall i :: 1 <= i < |liveUndos| ==> (liveUndos[i] in undos <==> curUndo <= i))
  }

  /** Revision numbers increase along the log and stay below `rev_counter`. */
  ghost predicate Numbered(revs: seq<Revision>, revCounter: nat)
  {
    |revs| >= 1 && revs[0].num == 0 &&
    (forall i, j :: 0 <= i < j < |revs| ==> NumsIncrease(revs, i, j)) &&
    revs[|revs| - 1].num < revCounter
  }

  ghost predicate NumsIncrease(revs: seq<Revision>, i: nat, j: nat)
  {
    i < j < |revs| && revs[i].num < revs[j].num
  }

  /** The log agrees with the present: the recorded history unwinds from the current mask,
      text and tombstones fit the mask, numbers and undo groups grow along the log. */
  ghost predicate Logged(revs: seq<Revision>, lens: seq<nat>, masks: seq<Subset>, undoneAt: seq<set<nat>>,
                         dfu: Subset, undone: set<nat>, text: Rope, tombstones: Rope, revCounter: nat, undoGroupId: nat)
  {
    Recorded(revs, lens, masks, undoneAt, dfu, undone) &&
    |text| == CountFalse(dfu) && |tombstones| == CountTrue(dfu) &&
    Numbered(revs, revCounter) &&
    MaxUndoOrdered(revs) && revs[|revs| - 1].maxUndoSoFar < undoGroupId
  }

  /** Appending a revision whose backward step leads to the present keeps the log in order. */
  lemma LoggedAppend(revs: seq<Revision>, lens: seq<nat>, masks: seq<Subset>, undoneAt: seq<set<nat>>,
                     dfu: Subset, undone: set<nat>, revCounter: nat, undoGroupId: nat,
                     r: Revision, text': Rope, tombstones': Rope, dfu': Subset, undone': set<nat>)
    requires Recorded(revs, lens, masks, undoneAt, dfu, undone) && Numbered(revs, revCounter)
    requires StepOk(r.edit, |dfu|, |dfu'|)
    requires UnwindStep(r.edit, dfu', undone', true) == dfu && UndoneStep(r.edit, undone', true) == undone
    requires |text'| == CountFalse(dfu') && |tombstones'| == CountTrue(dfu')
    requires r.num == revCounter && MaxUndoOrdered(revs + [r]) && r.maxUndoSoFar < undoGroupId
    ensures Logged(revs + [r], lens + [|dfu'|], masks + [dfu'], undoneAt + [undone'], dfu', undone',
                   text', tombstones', revCounter + 1, undoGroupId)
  {
    RecordedAppend(revs, lens, masks, undoneAt, dfu, undone, r, dfu', undone');
    NumberedAppend(revs, revCounter, r);
  }

  lemma NumberedAppend(revs: seq<Revision>, revCounter: nat, r: Revision)
    requires Numbered(revs, revCounter) && r.num == revCounter
    ensures Numbered(revs + [r], revCounter + 1)
  {
    var revs' := revs + [r];
    forall i, j | 0 <= i < j < |revs'|
      ensures NumsIncrease(revs', i, j)
    {
      if j < |revs| {
        assert NumsIncrease(revs, i, j);
        assert revs'[i] == revs[i] && revs'[j] == revs[j];
      } else if i < |revs| - 1 {
        assert NumsIncrease(revs, i, |revs| - 1);
        assert revs'[i] == revs[i] && revs'[j] == r;
      } else {
        assert revs'[i] == revs[i] && revs'[j] == r;
      }
    }
  }

  /** Changing only the cursors stored in the log keeps it in order. */
  lemma LoggedSameEdits(revs: seq<Revision>, revs': seq<Revision>, lens: seq<nat>, masks: seq<Subset>,
                        undoneAt: seq<set<nat>>, dfu: Subset, undone: set<nat>, text: Rope, tombstones: Rope,
                        revCounter: nat, undoGroupId: nat)
    requires Logged(revs, lens, masks, undoneAt, dfu, undone, text, tombstones, revCounter, undoGroupId)
    requires |revs'| == |revs|
    requires forall j :: 0 <= j < |revs| ==>
               revs'[j].num == revs[j].num && revs'[j].maxUndoSoFar == revs[j].maxUndoSoFar && revs'[j].edit == revs[j].edit
    ensures Logged(revs', lens, masks, undoneAt, dfu, undone, text, tombstones, revCounter, undoGroupId)
  {
    RecordedSameEdits(revs, revs', lens, masks, undoneAt, dfu, undone);
    forall i, j | 0 <= i < j < |revs'|
      ensures NumsIncrease(revs', i, j)
    {
      assert NumsIncrease(revs, i, j);
    }
    forall i, j | 0 <= i <= j < |revs'|
      ensures MaxUndoPair(revs', i, j)
    {
      assert MaxUndoPair(revs, i, j);
    }
  }

  /** The revision `mk_new_rev` makes for an edit of a group below `undo_group_id` keeps the log
      in order, with the undone groups as they are. */
  lemma EditLogged(revs: seq<Revision>, lens: seq<nat>, masks: seq<Subset>, undoneAt: seq<set<nat>>,
                   dfu: Subset, undone: set<nat>, text: Rope, tombstones: Rope, revCounter: nat, undoGroupId: nat,
                   group: nat, delta: Delta)
    requires Logged(revs, lens, masks, undoneAt, dfu, undone, text, tombstones, revCounter, undoGroupId)
    requires DeltaOver(delta, |text|) && group < undoGroupId
    ensures var r := MkNewRev(revs, text, tombstones, dfu, undone, group, delta, revCounter);
            Logged(revs + [r.0], lens + [|r.3|], masks + [r.3], undoneAt + [undone], r.3, undone, r.1, r.2,
                   revCounter + 1, undoGroupId)
  {
    var r := MkNewRev(revs, text, tombstones, dfu, undone, group, delta, revCounter);
    MkNewRevUnwinds(revs, text, tombstones, dfu, undone, group, delta, revCounter);
    MaxUndoAppend(revs, r.0);
    LoggedAppend(revs, lens, masks, undoneAt, dfu, undone, revCounter, undoGroupId, r.0, r.1, r.2, r.3, undone);
  }

  /** What `mk_new_rev` does to the text and to the union string. */
  lemma EditText(text: Rope, tombstones: Rope, dfu: Subset, undone: set<nat>, group: nat, delta: Delta,
                 revs: seq<Revision>, revCounter: nat)
    requires |revs| >= 1 && |text| == CountFalse(dfu) && |tombstones| == CountTrue(dfu)
    requires DeltaOver(delta, |text|)
    ensures var r := MkNewRev(revs, text, tombstones, dfu, undone, group, delta, revCounter);
            var ins := r.0.edit.inserts;
            (group !in undone ==> r.1 == Apply(delta, text)) && (group in undone ==> r.1 == text) &&
            |ins| == |r.3| && CountFalse(ins) == |dfu| && CountTrue(ins) == |delta.chars| &&
            Merge(r.1, r.2, r.3) == Merge(Merge(text, tombstones, dfu), delta.chars, ins)
  {
    MkNewRevUnion(revs, text, tombstones, dfu, undone, group, delta, revCounter);
    if group in undone {
      MkNewRevUndone(revs, text, tombstones, dfu, undone, group, delta, revCounter);
    } else {
      MkNewRevLive(revs, text, tombstones, dfu, undone, group, delta, revCounter);
    }
  }

  /** What `mk_new_rev` leaves behind for an edit of `group`: the new revision is numbered
      `revCounter`, belongs to `group` and carries no cursors; the log stays in order with it
      appended; the text is the delta applied to the old text when the group is live and the
      old text when it is undone; the union string gains exactly the inserted characters;
      walking back over the revision gives the old mask, and under a live group the new mask
      is the old one lifted over the inserts plus the edit's deletes. */
  ghost predicate EditMade(revs: seq<Revision>, lens: seq<nat>, masks: seq<Subset>, undoneAt: seq<set<nat>>,
                           dfu: Subset, undone: set<nat>, text: Rope, tombstones: Rope, revCounter: nat,
                           undoGroupId: nat, group: nat, delta: Delta,
                           newRev: Revision, newText: Rope, newTombstones: Rope, newDfu: Subset)
  {
    |revs| >= 1 && |text| == CountFalse(dfu) && |tombstones| == CountTrue(dfu) && DeltaOver(delta, |text|) &&
    newRev.num == revCounter && newRev.maxUndoSoFar == Max(group, revs[|revs| - 1].maxUndoSoFar) &&
    newRev.edit.Edit? && newRev.edit.undoGroup == group &&
    newRev.cursorBefore.None? && newRev.cursorAfter.None? &&
    Logged(revs + [newRev], lens + [|newDfu|], masks + [newDfu], undoneAt + [undone], newDfu, undone,
           newText, newTombstones, revCounter + 1, undoGroupId) &&
    (group !in undone ==> newText == Apply(delta, text)) && (group in undone ==> newText == text) &&
    |newRev.edit.inserts| == |newDfu| && CountFalse(newRev.edit.inserts) == |dfu| &&
    CountTrue(newRev.edit.inserts) == |delta.chars| &&
    Merge(newText, newTombstones, newDfu) == Merge(Merge(text, tombstones, dfu), delta.chars, newRev.edit.inserts) &&
    |newRev.edit.deletes| == |newDfu| && UnwindStep(newRev.edit, newDfu, undone, true) == dfu &&
    (group !in undone ==> newDfu == Union(Expand(dfu, newRev.edit.inserts), newRev.edit.deletes))
  }

  /** `mk_new_rev` on a log in order, for a group below `undo_group_id`, does all of that. */
  lemma MkNewRevMade(revs: seq<Revision>, lens: seq<nat>, masks: seq<Subset>, undoneAt: seq<set<nat>>,
                     dfu: Subset, undone: set<nat>, text: Rope, tombstones: Rope, revCounter: nat, undoGroupId: nat,
                     group: nat, delta: Delta)
    requires Logged(revs, lens, masks, undoneAt, dfu, undone, text, tombstones, revCounter, undoGroupId)
    requires DeltaOver(delta, |text|) && group < undoGroupId
    ensures var r := MkNewRev(revs, text, tombstones, dfu, undone, group, delta, revCounter);
            EditMade(revs, lens, masks, undoneAt, dfu, undone, text, tombstones, revCounter, undoGroupId, group, delta,
                     r.0, r.1, r.2, r.3)
  {
    EditLogged(revs, lens, masks, undoneAt, dfu, undone, text, tombstones, revCounter, undoGroupId, group, delta);
    EditText(text, tombstones, dfu, undone, group, delta, revs, revCounter);
    MkNewRevShape(revs, text, tombstones, dfu, undone, group, delta, revCounter);
    MkNewRevUnwinds(revs, text, tombstones, dfu, undone, group, delta, revCounter);
  }

  /** What `undo` makes of the log when `groups` become the undone groups: the revision and
      the mask after it are `History.ComputeUndo`'s, `delta` is the change synthesized from
      the old mask to the new one, the text is `delta` applied to the old text and the
      tombstones are the deleted characters under the new mask. The log stays in order with
      `groups` as the undone groups, the union string is unchanged, and the text stays as it
      is when `groups` already are the undone groups. */
  ghost predicate UndoMade(revs: seq<Revision>, lens: seq<nat>, masks: seq<Subset>, undoneAt: seq<set<nat>>,
                           dfu: Subset, undone: set<nat>, text: Rope, tombstones: Rope, revCounter: nat,
                           undoGroupId: nat, groups: set<nat>, delta: Delta,
                           newRev: Revision, newText: Rope, newTombstones: Rope, newDfu: Subset)
  {
    Logged(revs, lens, masks, undoneAt, dfu, undone, text, tombstones, revCounter, undoGroupId) &&
    (newRev, newDfu) == ComputeUndo(revs, lens, dfu, undone, groups, revCounter) &&
    delta == Synthesize(tombstones, dfu, newDfu) && newText == Apply(delta, text) &&
    newTombstones == ShuffleTombstones(text, tombstones, dfu, newDfu) &&
    Logged(revs + [newRev], lens + [|newDfu|], masks + [newDfu], undoneAt + [groups], newDfu, groups,
           newText, newTombstones, revCounter + 1, undoGroupId) &&
    Merge(newText, newTombstones, newDfu) == Merge(text, tombstones, dfu) &&
    (groups == undone ==> newText == text)
  }

  lemma ComputeUndoMade(revs: seq<Revision>, lens: seq<nat>, masks: seq<Subset>, undoneAt: seq<set<nat>>,
                        dfu: Subset, undone: set<nat>, text: Rope, tombstones: Rope, revCounter: nat, undoGroupId: nat,
                        groups: set<nat>)
    requires Logged(revs, lens, masks, undoneAt, dfu, undone, text, tombstones, revCounter, undoGroupId)
    ensures var r := ComputeUndo(revs, lens, dfu, undone, groups, revCounter);
            var d := Synthesize(tombstones, dfu, r.1);
            UndoMade(revs, lens, masks, undoneAt, dfu, undone, text, tombstones, revCounter, undoGroupId, groups, d,
                     r.0, Apply(d, text), ShuffleTombstones(text, tombstones, dfu, r.1), r.1)
  {
    var r := ComputeUndo(revs, lens, dfu, undone, groups, revCounter);
    UndoLogged(revs, lens, masks, undoneAt, dfu, undone, text, tombstones, revCounter, undoGroupId, groups);
    UndoText(text, tombstones, dfu, r.1);
  }

  /** What `undo` does to the text: the union string stays the same, and undoing nothing
      leaves the text as it is. */
  lemma UndoText(text: Rope, tombstones: Rope, dfu: Subset, newDfu: Subset)
    requires |dfu| == |newDfu| && |text| == CountFalse(dfu) && |tombstones| == CountTrue(dfu)
    ensures var t := Apply(Synthesize(tombstones, dfu, newDfu), text);
            var ts := ShuffleTombstones(text, tombstones, dfu, newDfu);
            |t| == CountFalse(newDfu) && |ts| == CountTrue(newDfu) &&
            Merge(t, ts, newDfu) == Merge(text, tombstones, dfu) &&
            (newDfu == dfu ==> t == text)
  {
    ApplySynthesize(text, tombstones, dfu, newDfu);
    MergeSplit(Merge(text, tombstones, dfu), newDfu);
    if newDfu == dfu {
      KeepMerge(text, tombstones, dfu);
    }
  }

  /** The revision `compute_undo` makes, with the text and tombstones `undo` derives from it,
      keeps the log in order, with `groups` as the new undone groups. */
  lemma UndoLogged(revs: seq<Revision>, lens: seq<nat>, masks: seq<Subset>, undoneAt: seq<set<nat>>,
                   dfu: Subset, undone: set<nat>, text: Rope, tombstones: Rope, revCounter: nat, undoGroupId: nat,
                   groups: set<nat>)
    requires Logged(revs, lens, masks, undoneAt, dfu, undone, text, tombstones, revCounter, undoGroupId)
    ensures var r := ComputeUndo(revs, lens, dfu, undone, groups, revCounter);
            Logged(revs + [r.0], lens + [|r.1|], masks + [r.1], undoneAt + [groups], r.1, groups,
                   Apply(Synthesize(tombstones, dfu, r.1), text), ShuffleTombstones(text, tombstones, dfu, r.1),
                   revCounter + 1, undoGroupId)
  {
    var r := ComputeUndo(revs, lens, dfu, undone, groups, revCounter);
    ApplySynthesize(text, tombstones, dfu, r.1);
    MaxUndoAppend(revs, r.0);
    LoggedAppend(revs, lens, masks, undoneAt, dfu, undone, revCounter, undoGroupId, r.0,
                 Apply(Synthesize(tombstones, dfu, r.1), text), ShuffleTombstones(text, tombstones, dfu, r.1), r.1, groups);
  }

  /** A fresh mask keeps every character visible. */
  lemma {:induction false} CountFalseAll(n: nat)
    ensures CountFalse(NewSubset(n)) == n
  {
  }

  // ---------------------------------------------------------------------------------------
  // Undoing and redoing an edit that opened a new group.

  /** Undo after an edit that opened a new group: when `undo` makes that group undone as well,
      the text is the text from before the edit, and the mask is the one from before the edit
      with the inserted characters deleted too. */
  lemma UndoAfterEdit(revs: seq<Revision>, lens: seq<nat>, masks: seq<Subset>, undoneAt: seq<set<nat>>,
                      dfu: Subset, undone: set<nat>, text: Rope, tombstones: Rope, revCounter: nat, undoGroupId: nat,
                      group: nat, delta: Delta, edit: Revision, text1: Rope, tombstones1: Rope, dfu1: Subset,
                      undoDelta: Delta, undo: Revision, text2: Rope, tombstones2: Rope, dfu2: Subset)
    requires Logged(revs, lens, masks, undoneAt, dfu, undone, text, tombstones, revCounter, undoGroupId)
    requires EditMade(revs, lens, masks, undoneAt, dfu, undone, text, tombstones, revCounter, undoGroupId, group, delta,
                      edit, text1, tombstones1, dfu1)
    requires group !in undone && revs[|revs| - 1].maxUndoSoFar < group
    requires UndoMade(revs + [edit], lens + [|dfu1|], masks + [dfu1], undoneAt + [undone], dfu1, undone, text1, tombstones1,
                      revCounter + 1, undoGroupId, undone + {group}, undoDelta, undo, text2, tombstones2, dfu2)
    ensures |dfu| == CountFalse(edit.edit.inserts) && dfu2 == TransformUnion(dfu, edit.edit.inserts)
    ensures text2 == text
  {
    var n := edit.edit.inserts;
    assert ChainStep(revs + [edit], lens + [|dfu1|], |revs|);
    UndoNewGroup(revs, lens, dfu, undone, edit, dfu1, revCounter + 1);
    ApplySynthesize(text1, tombstones1, dfu1, dfu2);
    KeepInsertedDeleted(Merge(text, tombstones, dfu), delta.chars, dfu, n);
    KeepMerge(text, tombstones, dfu);
  }

  /** Redo right after that undo: when `undo` makes the group live again, the text, the
      tombstones and the mask are again those the edit left. */
  lemma RedoAfterUndo(revs: seq<Revision>, lens: seq<nat>, masks: seq<Subset>, undoneAt: seq<set<nat>>,
                      dfu: Subset, undone: set<nat>, text: Rope, tombstones: Rope, revCounter: nat, undoGroupId: nat,
                      group: nat, delta: Delta, edit: Revision, text1: Rope, tombstones1: Rope, dfu1: Subset,
                      undoDelta: Delta, undo: Revision, text2: Rope, tombstones2: Rope, dfu2: Subset,
                      redoDelta: Delta, redo: Revision, text3: Rope, tombstones3: Rope, dfu3: Subset)
    requires Logged(revs, lens, masks, undoneAt, dfu, undone, text, tombstones, revCounter, undoGroupId)
    requires EditMade(revs, lens, masks, undoneAt, dfu, undone, text, tombstones, revCounter, undoGroupId, group, delta,
                      edit, text1, tombstones1, dfu1)
    requires group !in undone && revs[|revs| - 1].maxUndoSoFar < group
    requires UndoMade(revs + [edit], lens + [|dfu1|], masks + [dfu1], undoneAt + [undone], dfu1, undone, text1, tombstones1,
                      revCounter + 1, undoGroupId, undone + {group}, undoDelta, undo, text2, tombstones2, dfu2)
    requires UndoMade((revs + [edit]) + [undo], (lens + [|dfu1|]) + [|dfu2|], (masks + [dfu1]) + [dfu2],
                      (undoneAt + [undone]) + [undone + {group}], dfu2, undone + {group}, text2, tombstones2,
                      revCounter + 2, undoGroupId, undone, redoDelta, redo, text3, tombstones3, dfu3)
    ensures dfu3 == dfu1 && text3 == text1 && tombstones3 == tombstones1
  {
    UndoAfterEdit(revs, lens, masks, undoneAt, dfu, undone, text, tombstones, revCounter, undoGroupId, group, delta,
                  edit, text1, tombstones1, dfu1, undoDelta, undo, text2, tombstones2, dfu2);
    assert ChainStep(revs + [edit], lens + [|dfu1|], |revs|);
    RedoNewGroup(revs, lens, dfu, undone, edit, dfu1, undo, dfu2, revCounter + 2);
    ApplySynthesize(text2, tombstones2, dfu2, dfu3);
    KeepMerge(text1, tombstones1, dfu1);
  }

  /** Where the newest revision sits: on a numbered log, the last index carrying the number of
      revision `i` is `i`. */
  lemma FindNumbered(revs: seq<Revision>, revCounter: nat, i: nat)
    requires Numbered(revs, revCounter) && i < |revs|
    ensures FindRev(revs, revs[i].num) == Some(i)
  {
    forall j | i < j < |revs|
      ensures revs[j].num != revs[i].num
    {
      assert NumsIncrease(revs, i, j);
    }
  }

  /** The pristine corollary: if the revision before the edit was pristine, then after the
      undo the buffer is pristine again, since both revisions leave the same characters of the
      current union string deleted. */
  lemma PristineAfterUndo(revs: seq<Revision>, lens: seq<nat>, masks: seq<Subset>, undoneAt: seq<set<nat>>,
                          dfu: Subset, undone: set<nat>, text: Rope, tombstones: Rope, revCounter: nat, undoGroupId: nat,
                          group: nat, delta: Delta, edit: Revision, text1: Rope, tombstones1: Rope, dfu1: Subset,
                          undoDelta: Delta, undo: Revision, text2: Rope, tombstones2: Rope, dfu2: Subset)
    requires Logged(revs, lens, masks, undoneAt, dfu, undone, text, tombstones, revCounter, undoGroupId)
    requires EditMade(revs, lens, masks, undoneAt, dfu, undone, text, tombstones, revCounter, undoGroupId, group, delta,
                      edit, text1, tombstones1, dfu1)
    requires group !in undone && revs[|revs| - 1].maxUndoSoFar < group
    requires UndoMade(revs + [edit], lens + [|dfu1|], masks + [dfu1], undoneAt + [undone], dfu1, undone, text1, tombstones1,
                      revCounter + 1, undoGroupId, undone + {group}, undoDelta, undo, text2, tombstones2, dfu2)
    ensures Chain((revs + [edit]) + [undo], (lens + [|dfu1|]) + [|dfu2|]) && |dfu2| == |dfu1|
    ensures IsEquivalentRevision((revs + [edit]) + [undo], (lens + [|dfu1|]) + [|dfu2|], dfu2, undone + {group},
                                 revs[|revs| - 1].num, undo.num)
  {
    UndoAfterEdit(revs, lens, masks, undoneAt, dfu, undone, text, tombstones, revCounter, undoGroupId, group, delta,
                  edit, text1, tombstones1, dfu1, undoDelta, undo, text2, tombstones2, dfu2);
    EditThenUndoEquivalent(revs, lens, masks, undoneAt, dfu, undone, text, tombstones, revCounter, undoGroupId,
                           edit, undo, dfu1, dfu2, masks + [dfu1], undoneAt + [undone], undone + {group}, text2, tombstones2);
  }

  /** The mask of the revision before an edit, lifted over the edit's inserts, is the mask after
      an undo that deletes exactly those inserts as well: the two revisions are equivalent. */
  lemma EditThenUndoEquivalent(revs: seq<Revision>, lens: seq<nat>, masks: seq<Subset>, undoneAt: seq<set<nat>>,
                               dfu: Subset, undone: set<nat>, text: Rope, tombstones: Rope, revCounter: nat,
                               undoGroupId: nat, edit: Revision, undo: Revision, dfu1: Subset, dfu2: Subset,
                               masks1: seq<Subset>, undoneAt1: seq<set<nat>>, undone2: set<nat>, text2: Rope, tombstones2: Rope)
    requires Logged(revs, lens, masks, undoneAt, dfu, undone, text, tombstones, revCounter, undoGroupId)
    requires Logged((revs + [edit]) + [undo], (lens + [|dfu1|]) + [|dfu2|], masks1 + [dfu2], undoneAt1 + [undone2],
                    dfu2, undone2, text2, tombstones2, revCounter + 2, undoGroupId)
    requires masks1 == masks + [dfu1]
    requires edit.edit.Edit? && undo.edit.Undo? && |dfu| == CountFalse(edit.edit.inserts)
    requires dfu2 == TransformUnion(dfu, edit.edit.inserts)
    ensures IsEquivalentRevision((revs + [edit]) + [undo], (lens + [|dfu1|]) + [|dfu2|], dfu2, undone2,
                                 revs[|revs| - 1].num, undo.num)
  {
    var revs2, lens2 := (revs + [edit]) + [undo], (lens + [|dfu1|]) + [|dfu2|];
    var k := |revs| - 1;
    assert revs2[k] == revs[k] && revs2[k + 1] == edit && revs2[k + 2] == undo;
    FindNumbered(revs2, revCounter + 2, k);
    FindNumbered(revs2, revCounter + 2, k + 2);
    RecordedMask(revs, lens, masks, undoneAt, dfu, undone, k);
    RecordedMask(revs2, lens2, masks1 + [dfu2], undoneAt1 + [undone2], dfu2, undone2, k);
    assert (masks1 + [dfu2])[k] == masks[k];
    LiftOverEditAndUndo(revs2, lens2, k + 1, dfu);
  }
}
