# cozy-lapce core, modelled in Dafny

This project models the list, line and state logic at the centre of the cozy-lapce editor, and
proves properties of that model. It covers:

- **The text buffer's revision engine** (`crates/doc/src/lines/buffer/mod.rs`). The buffer is a
  `class` whose fields are the source's fields:
  - the visible `text` and the `tombstones`, the two projections of the union string of every
    character ever inserted;
  - the `deletes_from_union` mask over that union string;
  - the append-only `revs` log of `Edit` and `Undo` revisions, and `rev_counter`;
  - the undo stack (`cur_undo`, `live_undos`, `undos`, `undo_group_id`) and `undone_groups`.

  Three ghost fields record what each revision left behind: the union length, the mask and
  the undone groups. The class invariant `Valid()` says three things:
  - walking the log backwards from the present recovers every recorded mask (`History.Recorded`);
  - text and tombstones fit the mask;
  - revision numbers grow along the log, `max_undo_so_far` never decreases, and the undo stack
    is well formed.

  Every method that changes the buffer keeps this invariant and states its new state.

  The calculations that only read the buffer are recursive functions in module `History`:
  `mk_new_rev`, `compute_undo`, the `deletes_from_union_*` walks,
  `find_first_undo_candidate_index`, `shuffle` and `shuffle_tombstones`.

  The rope library operations these calls use are stated over sequences in module `Subsets`.
  A rope is a `seq<char>` and a subset is a `seq<bool>` (true = deleted). The operations are
  `transform_expand`, `transform_shrink`, `union`, `subtract`, `bitxor`, `complement`,
  `synthesize` and `apply`.

  Module `EditDelta` holds how `edit` sorts its replacements and builds one delta from them.
- **The diff side classifier** (`crates/doc/src/lines/diff.rs`).
  - `left_changes` and `right_changes` are loops. Each is proved against a recursive
    specification function.
  - Lemmas say which ranges each pane marks as changed, and that the two panes stay aligned.
  - The peekable walk used by the free `is_diff`, `advance` and `consume_line` is a small class.
- **Folding ranges** (`crates/doc/src/lines/fold_new.rs`):
  - the fold-status toggle;
  - extracting folded ranges, with and without merging chained ones;
  - refreshing ranges while keeping their fold status;
  - the per-line queries;
  - the `MergeFoldingRangesLine` cursor that `get_line_num` drives.
- **Screen-line lookups** (`crates/doc/src/lines/screen_lines.rs`): the searches and the
  interval clamping over the list of visual lines.
- **The editor's diff-view line mapping and snippet placeholders** (`lapce-app/src/editor/mod.rs`):
  - `visual_line` and `actual_line` are loops, proved against recursive functions;
  - the two functions are proved to invert each other on a tiled change list;
  - the snippet placeholder list is a class whose methods follow the editor's commands.
- **Inline completion** (`lapce-app/src/inline_completion.rs`): cycling through suggestions, and
  the prefix stripping that decides what is shown after the cursor.
- **Terminal key encoding and selection toggles** (`lapce-app/src/terminal/data.rs`):
  - the C0 control codes;
  - the xterm modifier parameter;
  - the visual-mode and selection toggles;
  - the program chosen for a run configuration.
- **The proxy's terminal registry and write queue** (`lapce-proxy/src/terminal.rs`):
  - the registry is a map guarded by a raw id;
  - the write queue is a FIFO of byte chunks with partial-write progress;
  - the PTY writer is a scripted list of outcomes.
  - `pty_write` is proved to lose and repeat nothing: the bytes written, followed by what is
    still pending, are exactly what was pending before.

## Model

Paths are relative to the repository root.

| member | source | states |
|---|---|---|
| TextBuffer.Buffer.constructor | crates/doc/src/lines/buffer/mod.rs:107-150 | A fresh buffer holds the text with nothing deleted and no tombstones. Its log is the single revision 0. `rev_counter` is 1, `cur_undo` is 1, `live_undos` is `[0]`, `undo_group_id` is 1. The buffer invariant holds. |
| TextBuffer.Buffer.Rev | crates/doc/src/lines/buffer/mod.rs:153-155 | The current revision is the number of the newest entry in the log. |
| TextBuffer.Buffer.SetPristine | crates/doc/src/lines/buffer/mod.rs:158-164 | After `set_pristine` the buffer is pristine and the invariant is kept. |
| TextBuffer.Buffer.IsPristine | crates/doc/src/lines/buffer/mod.rs:162-164 | The buffer is pristine exactly when the revision marked pristine is in the log and its mask, lifted to the current union string, equals the head revision's. |
| TextBuffer.Buffer.IsEquivalentRevision | crates/doc/src/lines/buffer/mod.rs:178-187 | Two revisions are equivalent exactly when both numbers are in the log and the masks their last occurrences had, lifted to the current union string, are equal. |
| TextBuffer.Buffer.SetCursorBefore | crates/doc/src/lines/buffer/mod.rs:166-170 | Only the newest revision's `cursor_before` changes; the invariant is kept. |
| TextBuffer.Buffer.SetCursorAfter | crates/doc/src/lines/buffer/mod.rs:172-176 | Only the newest revision's `cursor_after` changes; the invariant is kept. |
| TextBuffer.Buffer.ResetEditType | crates/doc/src/lines/buffer/mod.rs:267-271 | The last edit type becomes `Other`, so the next edit never joins the previous group by type. |
| TextBuffer.Buffer.HistoryRecovered | crates/doc/src/lines/buffer/mod.rs:458-520 | On a consistent buffer, `deletes_from_union_for_index(i)` gives back the mask the buffer had right after revision `i`. For the newest revision that is the current mask. |
| TextBuffer.Buffer.CalculateUndoGroup | crates/doc/src/lines/buffer/mod.rs:382-397 | When `live_undos` is not empty and the edit type does not break the group, the newest live group is reused and nothing else changes. Otherwise the redo entries above `cur_undo` are dropped, `undo_group_id` is pushed and returned, and `cur_undo` and `undo_group_id` each grow by one. The undo stack stays well formed. |
| TextBuffer.Buffer.ApplyEdit | crates/doc/src/lines/buffer/mod.rs:350-380 | The new revision is appended and `rev_counter` grows by one. The new text, tombstones and mask are installed. The invariant holds afterwards. |
| TextBuffer.Buffer.AddDelta | crates/doc/src/lines/buffer/mod.rs:330-348 | Exactly one edit revision is appended, numbered with the old `rev_counter`, in the current undo group. It is exactly what `mk_new_rev` makes of the delta. The invariant is kept. |
| TextBuffer.Buffer.MkNewRev | crates/doc/src/lines/buffer/mod.rs:401-456 | The revision, text, tombstones and mask are those of `History.MkNewRev`. Appending them keeps the log in order. `atomic_rev` publishes `rev_counter`. |
| TextBuffer.Buffer.Edit | crates/doc/src/lines/buffer/mod.rs:273-314 | One edit revision is appended. When its group is live, the new text is the old text with the sorted replacements applied. The invariant is kept. |
| TextBuffer.Buffer.Reload | crates/doc/src/lines/buffer/mod.rs:223-242 | One edit revision of type `Other` is appended. When its group is live, the text becomes the new content. With `set_pristine` the result is pristine; without it the pristine revision is unchanged. |
| TextBuffer.Buffer.InitContent | crates/doc/src/lines/buffer/mod.rs:202-221 | Non-empty content is loaded into the empty buffer as an edit of group 0. Empty content changes neither the text nor the log. The result is pristine. |
| TextBuffer.Buffer.Undo | crates/doc/src/lines/buffer/mod.rs:623-661 | Afterwards exactly `groups` are undone and one undo revision is appended. The returned cursors are that revision's. The union string is unchanged and the invariant is kept. |
| TextBuffer.Buffer.ComputeUndo | crates/doc/src/lines/buffer/mod.rs:540-621 | The revision and mask are those of `History.ComputeUndo`. With the text and tombstones `undo` derives from them, the log stays in order. |
| TextBuffer.Buffer.DoUndo | crates/doc/src/lines/buffer/mod.rs:663-677 | With `cur_undo <= 1` nothing changes and the result is None. Otherwise `cur_undo` drops by one, `live_undos[cur_undo - 1]` joins `undos`, the buffer undoes exactly `undos`, and the union string is unchanged. |
| TextBuffer.Buffer.DoRedo | crates/doc/src/lines/buffer/mod.rs:679-693 | With `cur_undo >= live_undos.len()` nothing changes and the result is None. Otherwise `live_undos[cur_undo]` leaves `undos`, `cur_undo` grows by one, the buffer undoes exactly `undos`, and the union string is unchanged. |
| History.Unwind | crates/doc/src/lines/buffer/mod.rs:475-520 | The backward walk of `deletes_from_union_before_index` yields a mask of the union length the revisions' chain assigns to the revision it stops at. |
| History.UnwindAppend | crates/doc/src/lines/buffer/mod.rs:475-520 | The backward walk reads only the revisions below its start, so appending to the log does not change it. |
| History.DeletesFromUnionForIndex | crates/doc/src/lines/buffer/mod.rs:458-460 | The mask right after revision `index` has the union length of that time. |
| History.RecordedAppend | crates/doc/src/lines/buffer/mod.rs:350-380 | Appending a revision whose backward step leads back to the present keeps every earlier revision's mask recoverable. |
| History.RecordedSameEdits | crates/doc/src/lines/buffer/mod.rs:166-176 | Changing only the cursors stored in the log keeps every mask recoverable. |
| History.DeletesFromCurUnionForIndex | crates/doc/src/lines/buffer/mod.rs:462-473 | The mask for revision `index` is carried to the current union length. For the newest revision it is the current mask. |
| History.FindRev | crates/doc/src/lines/buffer/mod.rs:189-196 | Gives the last index whose revision has the number, or None when no revision has it. |
| History.IsEquivalentRevision | crates/doc/src/lines/buffer/mod.rs:178-187 | Equivalence holds exactly when both revision numbers are in the log and their masks, lifted to the current union string, are equal. A revision in the log is equivalent to itself. |
| History.FirstUndoCandidate | crates/doc/src/lines/buffer/mod.rs:522-538 | An empty toggled set gives `revs.len()`. Otherwise the result is one past the last revision whose `max_undo_so_far` is below the smallest toggled group, and every later revision's is not below it. |
| History.CandidateSkipsUntoggled | crates/doc/src/lines/buffer/mod.rs:522-553 | No revision before the first candidate is an edit of a toggled group. So the replay in `compute_undo` may start there. |
| History.MaxUndoAppend | crates/doc/src/lines/buffer/mod.rs:358-364 | Appending a revision whose `max_undo_so_far` is at least the head's keeps `max_undo_so_far` non-decreasing along the log. |
| History.ReplayForUndo | crates/doc/src/lines/buffer/mod.rs:553-576 | The forward replay of `compute_undo` yields a mask of the current union length. |
| History.CursorAfterScan | crates/doc/src/lines/buffer/mod.rs:583-602 | The cursor found is the starting one, or the `cursor_after` of an edit of the same group later in the log. |
| History.ComputeUndo | crates/doc/src/lines/buffer/mod.rs:540-621 | The undo revision carries `rev_counter` and the head's `max_undo_so_far`. It toggles exactly the symmetric difference of the undone groups and `groups`. Walking back over it restores the old mask and undone groups. Asking for the groups already undone leaves the mask as it is. |
| History.ShuffleTombstones | crates/doc/src/lines/buffer/mod.rs:720-737 | The new tombstones are exactly the characters of the union string that the new mask deletes. |
| History.Shuffle | crates/doc/src/lines/buffer/mod.rs:739-761 | The new text and tombstones are the kept and deleted projections of the same union string under the new mask, so the union string does not change. |
| History.MkNewRev | crates/doc/src/lines/buffer/mod.rs:401-456 | The new mask grows by the inserted characters and text plus tombstones fill it. The revision is numbered `rev_counter`, with `max_undo_so_far` the maximum of the group and the head's. |
| History.MkNewRevUnion | crates/doc/src/lines/buffer/mod.rs:401-456 | After an edit, the union string is the old one with the inserted characters interleaved at the new revision's inserted positions. |
| History.MkNewRevLive | crates/doc/src/lines/buffer/mod.rs:424-435 | Under a live group, the new text is the delta applied to the old text. |
| History.MkNewRevUndone | crates/doc/src/lines/buffer/mod.rs:424-435 | Under an undone group, the inserted characters go straight to the tombstones and the text does not change. |
| History.MkNewRevShape | crates/doc/src/lines/buffer/mod.rs:401-456 | The recorded inserts, deletes and mask, spelled out. |
| History.MkNewRevUnwinds | crates/doc/src/lines/buffer/mod.rs:401-456 | Walking back over the new edit revision, with the same undone groups, gives the old mask. |
| BufferLog.LoggedAppend | crates/doc/src/lines/buffer/mod.rs:350-380 | Appending a revision whose backward step leads to the present keeps the log in order, that is `Logged`. |
| BufferLog.NumberedAppend | crates/doc/src/lines/buffer/mod.rs:358-364 | Appending a revision numbered `rev_counter` and incrementing `rev_counter` keeps the numbers increasing along the log. |
| BufferLog.LoggedSameEdits | crates/doc/src/lines/buffer/mod.rs:166-176 | Changing only the cursors in the log keeps it in order. |
| BufferLog.EditLogged | crates/doc/src/lines/buffer/mod.rs:401-456 | The revision `mk_new_rev` makes for a group below `undo_group_id` keeps the log in order, with the undone groups unchanged. |
| BufferLog.EditText | crates/doc/src/lines/buffer/mod.rs:424-456 | Under a live group the new text is the delta applied to the old one, and under an undone group the text is unchanged. Either way the union string gains exactly the inserted characters. |
| BufferLog.MkNewRevMade | crates/doc/src/lines/buffer/mod.rs:401-456 | `mk_new_rev` on a log in order does all of the above at once. |
| BufferLog.ComputeUndoMade | crates/doc/src/lines/buffer/mod.rs:540-661 | The revision `compute_undo` makes, with what `undo` derives from it, keeps the log in order with `groups` undone. |
| BufferLog.UndoText | crates/doc/src/lines/buffer/mod.rs:635-646 | `undo` keeps the union string: the new text and tombstones are the projections of the old union string under the new mask. Undoing nothing new leaves the text as it is. |
| BufferLog.UndoLogged | crates/doc/src/lines/buffer/mod.rs:623-661 | The undo revision and the text and tombstones derived from it keep the log in order, with `groups` as the undone groups. |
| BufferLog.CountFalseAll | crates/doc/src/lines/buffer/mod.rs:107-150 | A fresh mask keeps every character visible. |
| History.UndoNewGroup | crates/doc/src/lines/buffer/mod.rs:540-621 | After an edit that opened a new live group, `compute_undo` with that group added walks back over the edit only. The mask it gives is the old mask lifted over the edit's inserts, with the inserts marked deleted. |
| History.RedoNewGroup | crates/doc/src/lines/buffer/mod.rs:540-621 | Right after that undo, `compute_undo` with the group taken out again gives back the mask the edit left. |
| History.RedoAt | crates/doc/src/lines/buffer/mod.rs:540-621 | The same redo, stated at the index of the edit in a log ending with the undo revision. |
| History.FirstCandidateTwo | crates/doc/src/lines/buffer/mod.rs:522-538 | For a group opened by the newest edit, the first revision `compute_undo` reconsiders is that edit. |
| History.LiftOverEditAndUndo | crates/doc/src/lines/buffer/mod.rs:462-473 | Lifting a mask over an edit and an undo revision marks the edit's inserts deleted and keeps the rest of the mask. |
| BufferLog.UndoAfterEdit | crates/doc/src/lines/buffer/mod.rs:623-677 | An edit of a newly opened live group, undone right after (the group added to the undone groups), gives back the text from before the edit. The mask is the old one lifted over the inserts. |
| BufferLog.RedoAfterUndo | crates/doc/src/lines/buffer/mod.rs:623-693 | Redoing that group right after the undo gives back the text, tombstones and mask the edit left. |
| BufferLog.PristineAfterUndo | crates/doc/src/lines/buffer/mod.rs:162-187 | After that undo, the revision before the edit is equivalent to the undo revision, so a buffer marked pristine before the edit is pristine again. |
| BufferLog.EditThenUndoEquivalent | crates/doc/src/lines/buffer/mod.rs:178-187 | The mask of the revision before the edit, lifted over the edit's inserts, equals the mask after the undo. The two revisions are equivalent. |
| BufferLog.FindNumbered | crates/doc/src/lines/buffer/mod.rs:189-196 | In a log with increasing numbers, `find_rev` of a revision's number finds that revision. |
| EditDelta.Cmp | crates/doc/src/lines/buffer/mod.rs:291-299 | `Ord::cmp` on offsets: Less exactly when below, Equal exactly when equal. |
| EditDelta.CompareReplacements | crates/doc/src/lines/buffer/mod.rs:291-299 | The comparator in `edit` answers Equal exactly on the same region, Less exactly when the first region ends at or before the second starts, and Greater exactly when it ends after the second starts. |
| EditDelta.CompareApart | crates/doc/src/lines/buffer/mod.rs:291-299 | On regions that do not overlap, the comparator in `edit` orders by position. It is Equal only on the same region, and Less exactly when the first ends at or before the second starts. |
| EditDelta.CompareOverlapping | crates/doc/src/lines/buffer/mod.rs:291-299 | On nested regions the comparator answers Greater both ways round, so it is not an order there. |
| EditDelta.InsertSorted | crates/doc/src/lines/buffer/mod.rs:291-299 | One insertion step of the sort keeps the same multiset of replacements. |
| EditDelta.SortReplacements | crates/doc/src/lines/buffer/mod.rs:291-299 | The sort is a permutation of the replacements. |
| EditDelta.InsertFits | crates/doc/src/lines/buffer/mod.rs:291-310 | Inserting a replacement apart from all others into a list the delta builder accepts gives a list it still accepts. |
| EditDelta.SortedFits | crates/doc/src/lines/buffer/mod.rs:282-310 | Pairwise disjoint regions within the text, once sorted, are accepted by the delta builder: each starts at or after the previous end and ends within the text. |
| EditDelta.BuildDelta | crates/doc/src/lines/buffer/mod.rs:300-311 | The delta built from the accepted replacements is a delta over the text's length. |
| EditDelta.ApplyBuildDelta | crates/doc/src/lines/buffer/mod.rs:300-311 | Applying the built delta to the text is the text with each replacement's region replaced by its string. |
| EditDelta.ApplyReplacementDelta | crates/doc/src/lines/buffer/mod.rs:309 | One replacement delta turns `t1 + t2` into `t1 + text`. |
| EditDelta.EditDelta | crates/doc/src/lines/buffer/mod.rs:282-311 | The delta `edit` builds is over the text's length. |
| EditDelta.SimpleEdit | crates/doc/src/lines/buffer/mod.rs:223-242 | The single-replacement delta `reload` uses is over the text's length. |
| EditDelta.ApplySimpleEdit | crates/doc/src/lines/buffer/mod.rs:223-242 | Applying it replaces exactly `start..end` by the string. |
| Diff.ConsumeLine | crates/doc/src/lines/diff.rs:36-47 | Gives the range exactly when the entry is filler (`Empty`) holding the line. |
| Diff.IsDiff | crates/doc/src/lines/diff.rs:49-55 | True exactly when the entry is `Changed` and holds the line. |
| Diff.After | crates/doc/src/lines/diff.rs:93-100 | The lines following the anchor, or from 0 without one, have the requested length. |
| Diff.LeftAdvance | crates/doc/src/lines/diff.rs:71-103 | One turn of the `left_changes` loop keeps "pushed so far, then what the rest pushes" equal to what the whole list pushes. |
| Diff.RightAdvance | crates/doc/src/lines/diff.rs:115-156 | The same for `right_changes`. |
| Diff.LeftChanges | crates/doc/src/lines/diff.rs:66-107 | The loop returns the left pane's list as the recursive specification defines it. |
| Diff.RightChanges | crates/doc/src/lines/diff.rs:109-160 | The loop returns the right pane's list as the recursive specification defines it. |
| Diff.Changes | crates/doc/src/lines/diff.rs:58-64 | Gives the right pane's list when `is_right`, and the left pane's otherwise. |
| Diff.ChangedLinesAppend | crates/doc/src/lines/diff.rs:66-160 | The changed ranges of a concatenation are those of each part, in order. |
| Diff.TotalLinesAppend | crates/doc/src/lines/diff.rs:66-160 | The painted line count of a concatenation is the sum of the parts' counts. |
| Diff.LensAppend | crates/doc/src/lines/diff.rs:66-160 | The lengths of a concatenation of ranges are those of each part, in order. |
| Diff.ResultCons | crates/doc/src/lines/diff.rs:66-160 | Unfolds the changed ranges and the line count on a list with a given first entry. |
| Diff.PaddingShape | crates/doc/src/lines/diff.rs:80-85 | The padding after an edit is filler only, and pads the shorter side to the longer side's length. |
| Diff.LeftChangedAreLefts | crates/doc/src/lines/diff.rs:66-107 | The left pane marks as changed exactly the `Left` ranges, in order. Everything else it emits is filler. |
| Diff.RightChangedAreRights | crates/doc/src/lines/diff.rs:109-160 | The right pane marks one changed range per `Right` segment, in order and of the same length. |
| Diff.PanesAligned | crates/doc/src/lines/diff.rs:58-160 | Whatever the anchors, the two panes paint the same number of lines for the same segments, so the panes stay aligned. |
| Diff.Skipped | crates/doc/src/lines/diff.rs:162-175 | The free `is_diff` drops exactly the leading entries that end at or before the line. |
| Diff.PeekDiff.constructor | crates/doc/src/lines/diff.rs:162-195 | The walk starts at the first entry. |
| Diff.PeekDiff.IsDiff | crates/doc/src/lines/diff.rs:162-175 | Drops the entries that end at or before the line. It then answers true exactly when the first remaining entry is `Changed` and holds the line, and false when none remains. |
| Diff.PeekDiff.Advance | crates/doc/src/lines/diff.rs:177-183 | Drops the first entry only when it ends at or before the line. Otherwise nothing changes. |
| Diff.PeekDiff.ConsumeLine | crates/doc/src/lines/diff.rs:185-195 | Gives the first entry's range exactly when that entry is filler holding the line. |
| Folding.ClickFlips | crates/doc/src/lines/fold_new.rs:732-747 | `click` flips whether a range is folded, two clicks restore the status, and `is_folded` holds exactly for `Fold`. |
| Folding.AllFoldedShape | crates/doc/src/lines/fold_new.rs:300-318 | Every extracted range is a folded item. The extracted ranges do not nest, and the first one starts at or below a positive limit line. |
| Folding.JoinCount | crates/doc/src/lines/fold_new.rs:285-292 | Counts exactly the leading items that start on the given line. |
| Folding.MergedFoldedStep | crates/doc/src/lines/fold_new.rs:278-296 | One turn of the merging loop, case by case: skip a nested or unfolded item, or emit a folded item merged with the items joined to it. |
| Folding.MergedFoldedShape | crates/doc/src/lines/fold_new.rs:274-298 | Every merged range runs from a folded item's start to the end of the last item that starts on that item's end line. The merged ranges do not nest. |
| Folding.MergeExample | crates/doc/src/lines/fold_new.rs:285-292 | Folded ranges on lines 0-3, 3-5 and 5-7 merge into 0-5 and 5-7: joining compares with the first item's end line, not the running end. |
| Folding.FirstMatch | crates/doc/src/lines/fold_new.rs:448-482 | Finds the first range whose start, or end for `UnfoldEnd`, is the position, or the list's length when none is. |
| Folding.ClickAt | crates/doc/src/lines/fold_new.rs:448-482 | Clicking one item keeps the list's length and every range's ends. |
| Folding.ClickTwice | crates/doc/src/lines/fold_new.rs:448-482 | Toggling the same position twice restores the list. |
| Folding.UpdateStatus | crates/doc/src/lines/fold_new.rs:546-554 | A range ends up folded exactly when it was folded or an equal range is in the folded list. Its ends and text are kept. |
| Folding.Refreshed | crates/doc/src/lines/fold_new.rs:442-446 | The refreshed list is the new list, each range with its status carried over. |
| Folding.RefreshSame | crates/doc/src/lines/fold_new.rs:442-446 | Refreshing a list of distinct ranges with itself changes nothing. |
| Folding.FoldingRanges.constructor | crates/doc/src/lines/fold_new.rs:267-272 | Holds the given items. |
| Folding.FoldingRanges.GetAllFoldedRange | crates/doc/src/lines/fold_new.rs:300-318 | The loop returns the folded items that are not nested in the last emitted one, in order. |
| Folding.FoldingRanges.GetAllFoldedFoldedRange | crates/doc/src/lines/fold_new.rs:274-298 | The loop returns the merged folded ranges as `MergedFolded` defines them. |
| Folding.FoldingRanges.MergeOne | crates/doc/src/lines/fold_new.rs:278-296 | One turn of the merging loop moves forward and emits at most one range, keeping the rest of the result as specified. |
| Folding.FoldingRanges.JoinFrom | crates/doc/src/lines/fold_new.rs:285-292 | The inner loop passes exactly the items joined on the line and returns the last one's end. |
| Folding.FoldingRanges.UpdateRanges | crates/doc/src/lines/fold_new.rs:442-446 | The list becomes the new ranges. Those equal to a currently folded range become folded; the others keep their given status. |
| Folding.FoldingRanges.ClickFirst | crates/doc/src/lines/fold_new.rs:448-482 | Only the first matching range is toggled. |
| Folding.FoldingRanges.UpdateFoldingItem | crates/doc/src/lines/fold_new.rs:448-471 | Toggles the first range starting at the item's position, or ending there for `UnfoldEnd`. Nothing else changes. |
| Folding.FoldingRanges.UpdateByPhantom | crates/doc/src/lines/fold_new.rs:473-483 | Toggles the first range starting at the position. Nothing else changes. |
| Folding.CountFromSum | crates/doc/src/lines/fold_new.rs:486-490 | The accumulating fold adds the sum of the spans to its start value. |
| Folding.FoldedLineCount | crates/doc/src/lines/fold_new.rs:486-490 | The folded line count is the sum over the ranges of end line minus start line. |
| Folding.FilterByLine | crates/doc/src/lines/fold_new.rs:492-506 | Keeps exactly the ranges whose lines cover the line. |
| Folding.FilterByLineAppend | crates/doc/src/lines/fold_new.rs:492-506 | Filtering distributes over concatenation, so the input order is kept. |
| Folding.VisualLine | crates/doc/src/lines/fold_new.rs:508-520 | The result is never below the line. It moves up only to the start line of a range hiding the line, and it is the line itself when no range hides it. |
| Folding.ContainLine | crates/doc/src/lines/fold_new.rs:522-538 | From a start index at or past the end, gives `(false, start_index)`. Otherwise the index never goes below the start and passes only ranges ending above the line. The answer is true exactly when the range at the index hides the line. |
| Folding.ContainPosition | crates/doc/src/lines/fold_new.rs:540-544 | True exactly when some range contains the position, ends included. |
| Folding.EndedBefore | crates/doc/src/lines/fold_new.rs:59-62 | Counts exactly the leading folded ranges that end above the line. |
| Folding.Chain | crates/doc/src/lines/fold_new.rs:67-75 | Counts the ranges chained on from the end line, and gives the chain's final end line. |
| Folding.FoldedByLine | crates/doc/src/lines/fold_new.rs:54-85 | Gives a range exactly when the first range not ended above the line covers it. That range starts there and runs to the end of its chain. |
| Folding.LineNum | crates/doc/src/lines/fold_new.rs:33-52 | A display line it finds is never past the last line. |
| Folding.LineNumStep | crates/doc/src/lines/fold_new.rs:40-49 | One turn of `get_line_num`: a folded chain at the current line is jumped over as a single display line. |
| Folding.LineNumUnfolded | crates/doc/src/lines/fold_new.rs:33-52 | With nothing folded, folded index `i` is display line `i`, within the last line. |
| Folding.MergeFoldingRangesLine.constructor | crates/doc/src/lines/fold_new.rs:27-30 | The cursor starts at the first folded range. |
| Folding.MergeFoldingRangesLine.GetFoldedRangeByLine | crates/doc/src/lines/fold_new.rs:54-85 | Gives the chained range at the line, as `FoldedByLine` defines it. Only the consumed ranges are dropped from the cursor. |
| Folding.MergeFoldingRangesLine.SkipEnded | crates/doc/src/lines/fold_new.rs:58-62 | Drops exactly the ranges that end above the line. |
| Folding.MergeFoldingRangesLine.TakeChain | crates/doc/src/lines/fold_new.rs:66-75 | Consumes exactly the ranges chained from the end line, and gives the chain's end. |
| Folding.MergeFoldingRangesLine.GetLineNum | crates/doc/src/lines/fold_new.rs:33-52 | The loop returns the display line of the folded index as `LineNum` defines it, and leaves the cursor as it defines. |
| Folding.MergeFoldingRangesLine.NextLineNum | crates/doc/src/lines/fold_new.rs:44-49 | One turn of the loop keeps the remaining answer unchanged while the cursor or the line moves forward. |
| Screen.InfoForOriginLine | crates/doc/src/lines/screen_lines.rs:141-158 | When entry i starts at the origin line and every earlier entry starts above it, the result is entry i. It is found exactly when such an entry exists. |
| Screen.InfoForOriginLineSorted | crates/doc/src/lines/screen_lines.rs:141-158 | On a screen that goes down the buffer, giving up early loses nothing: the line is found exactly when some entry starts at it. |
| Screen.FirstStartingAt | crates/doc/src/lines/screen_lines.rs:141-158 | On such a screen, the first entry starting at a line comes before every entry that starts below it. |
| Screen.InfoForFoldedLine | crates/doc/src/lines/screen_lines.rs:160-172 | When entry i shows the folded line and no earlier entry does, the result is entry i. It is found exactly when some entry shows the line. |
| Screen.Intersection | crates/doc/src/lines/screen_lines.rs:216-227 | The request is clamped to the first and last folded lines on screen. Nothing is returned on an empty screen or an empty clamped interval. What is returned lies on screen and within the request. |
| Screen.IntersectionConsecutive | crates/doc/src/lines/screen_lines.rs:216-227 | On a screen of consecutive folded lines, a request that overlaps it always gets both ends. |
| Screen.ScreenLines.constructor | crates/doc/src/lines/screen_lines.rs:80-87 | Nothing is on screen yet, and the viewport and line height are as given. |
| Screen.ScreenLines.IsEmpty | crates/doc/src/lines/screen_lines.rs:89-91 | True exactly when no visual line is on screen. |
| Screen.ScreenLines.Clear | crates/doc/src/lines/screen_lines.rs:93-96 | Only the viewport changes. The visual lines, diff sections and line height stay. |
| Screen.ScreenLines.LineInterval | crates/doc/src/lines/screen_lines.rs:121-128 | Fails exactly on an empty screen. Otherwise gives the origin lines of the first and last entries. |
| Screen.ScreenLines.OffsetInterval | crates/doc/src/lines/screen_lines.rs:130-139 | Fails exactly on an empty screen. Otherwise gives the first entry's start offset and the last entry's end offset. |
| Screen.ScreenLines.LineIntervalSpans | crates/doc/src/lines/screen_lines.rs:121-128 | On a screen that goes down the buffer, the line interval spans every entry. |
| Screen.ScreenLines.VisualLineInfoForOriginLine | crates/doc/src/lines/screen_lines.rs:141-158 | Gives the first entry on screen starting at the origin line. It is None exactly when no entry starts there before an entry starting below it. |
| Screen.ScreenLines.VisualLineInfoForOriginFoldedLine | crates/doc/src/lines/screen_lines.rs:160-172 | Gives the first entry on screen showing the folded line. It is None exactly when no entry shows it. |
| Screen.ScreenLines.IntersectionWithLines | crates/doc/src/lines/screen_lines.rs:216-227 | The ends returned are in order and lie within the request. |
| EditorData.VisualLine | lapce-app/src/editor/mod.rs:3286-3368 | In a normal view the screen row is the line. In a diff view the loop computes the row as the recursive walk over the change list defines it. |
| EditorData.ActualSegment | lapce-app/src/editor/mod.rs:3379-3475 | One turn of the `actual_line` loop either stops with the walk's answer, or passes the segment with the counters the walk has there. |
| EditorData.OwnSegment | lapce-app/src/editor/mod.rs:3407-3431 | The same, at a segment on the pane's own side. |
| EditorData.BothSegment | lapce-app/src/editor/mod.rs:3432-3472 | The same, at a `Both` block. |
| EditorData.ActualLine | lapce-app/src/editor/mod.rs:3370-3479 | In a normal view the buffer line is the row. In a diff view the loop computes the line as the recursive walk defines it. |
| EditorData.VisualLineAfter | lapce-app/src/editor/mod.rs:3286-3368 | Passing segments that do not hold the line only adds their rows. |
| EditorData.OwnLineLinear | lapce-app/src/editor/mod.rs:3312-3317 | A line inside the pane's own change range maps to the rows above that range plus its distance from the range's start. |
| EditorData.BothSkipZones | lapce-app/src/editor/mod.rs:3344-3357 | In a `Both` block with a folded part, the mapping has three zones: lines before the fold map one to one; every line of the fold maps to the one row that shows it; later lines move up by the fold's length minus one. |
| EditorData.OffsetGap | lapce-app/src/editor/mod.rs:3286-3368 | On a tiled list, the rows between two segments are at least the pane's lines between them. |
| EditorData.TiledNoEarlyStop | lapce-app/src/editor/mod.rs:3286-3368 | On a tiled list, no segment before the one holding the line stops the walk. |
| EditorData.ActualStep | lapce-app/src/editor/mod.rs:3370-3479 | One segment of the `actual_line` walk towards a row at or below the segment's last row. Either it stops with the line, or it passes the segment with its rows and lines counted. |
| EditorData.ActualWalk | lapce-app/src/editor/mod.rs:3370-3479 | The `actual_line` walk towards the row of a line in segment `k` reaches that line. |
| EditorData.RoundTrip | lapce-app/src/editor/mod.rs:3286-3479 | On a tiled change list, `actual_line` with bottom affinity undoes `visual_line` for every line of the pane. |
| EditorData.CurrentIndex | lapce-app/src/editor/mod.rs:2139-2146 | The current placeholder is the first that holds the cursor, or 0 when none does. |
| EditorData.FindCurrent | lapce-app/src/editor/mod.rs:2139-2146 | The search loop returns the current placeholder. |
| EditorData.CurrentInSeparated | lapce-app/src/editor/mod.rs:910-974 | In a snippet whose placeholders are separated, a cursor anywhere in placeholder `k` makes `k` current. |
| EditorData.EndsBefore | lapce-app/src/editor/mod.rs:910-974 | In a separated snippet, every placeholder ends before any later one starts. |
| EditorData.EditorSnippet.constructor | lapce-app/src/editor/mod.rs:2125-2152 | No snippet is active. |
| EditorData.EditorSnippet.AddPlaceholders | lapce-app/src/editor/mod.rs:2125-2152 | With no active snippet, the new placeholders become active only when there is more than one. With an active snippet, the result is `old[..current] + new + old[current + 1..]`. |
| EditorData.EditorSnippet.CursorMoved | lapce-app/src/editor/mod.rs:648-662 | The snippet ends exactly when the cursor is outside every placeholder. Otherwise it stays. |
| EditorData.EditorSnippet.JumpToNext | lapce-app/src/editor/mod.rs:910-943 | Selects the placeholder after the current one when there is one. The snippet ends when the current one is at least the last but one. |
| EditorData.EditorSnippet.JumpToPrev | lapce-app/src/editor/mod.rs:944-974 | Selects the placeholder before the current one exactly when the current index is above 0. |
| EditorData.NextThenPrev | lapce-app/src/editor/mod.rs:910-974 | In a separated snippet, landing anywhere in the next placeholder makes it current, so jumping back selects the placeholder the cursor came from. |
| EditorData.ShowInlineCompletion | lapce-app/src/editor/mod.rs:3753-3764 | The inline completion is asked for again exactly after the commands that delete around the cursor, indent the line or enter insert mode. |
| InlineCompletion.NextIndex | lapce-app/src/inline_completion.rs:139-144 | The next index stays within the list. |
| InlineCompletion.PrevIndex | lapce-app/src/inline_completion.rs:146-155 | The previous index stays within the list. Above 0 it is one less. |
| InlineCompletion.CycleInverse | lapce-app/src/inline_completion.rs:139-155 | `previous` undoes `next`, and `next` undoes `previous`. |
| InlineCompletion.NextTimesClimb | lapce-app/src/inline_completion.rs:139-144 | Below the end of the list, `k` calls of `next` move `k` places down. |
| InlineCompletion.NextTimesCompose | lapce-app/src/inline_completion.rs:139-144 | `a + b` calls of `next` are `a` calls followed by `b` calls. |
| InlineCompletion.NextTimesRound | lapce-app/src/inline_completion.rs:139-144 | `n` calls of `next` on a list of `n` return to the start, and no fewer do. |
| InlineCompletion.InlineCompletionData.constructor | lapce-app/src/inline_completion.rs:124-132 | Starts inactive with no suggestions. |
| InlineCompletion.InlineCompletionData.CurrentItem | lapce-app/src/inline_completion.rs:134-137 | The suggestion at `active`, and None exactly when `active` is past the list. |
| InlineCompletion.InlineCompletionData.Next | lapce-app/src/inline_completion.rs:139-144 | On a non-empty list, `active` becomes `(active + 1) mod len`. On an empty list nothing changes. Afterwards `active` is in range. |
| InlineCompletion.InlineCompletionData.Previous | lapce-app/src/inline_completion.rs:146-155 | On a non-empty list, 0 wraps to `len - 1` and other indexes decrease. On an empty list nothing changes. |
| InlineCompletion.InlineCompletionData.Cancel | lapce-app/src/inline_completion.rs:157-164 | Does nothing when inactive. Otherwise the suggestions go and the completion becomes inactive. |
| InlineCompletion.InlineCompletionData.SetItems | lapce-app/src/inline_completion.rs:168-181 | Installs the suggestions, shows the first, becomes active, and records the start offset and path. |
| InlineCompletion.InlineCompletionData.UpdateDoc | lapce-app/src/inline_completion.rs:183-218 | Inactive or empty: clears the inline text. Otherwise resets an out-of-range `active` to 0 and shows the current suggestion at the start of its range, or at the offset. |
| InlineCompletion.StripPrefix | lapce-app/src/inline_completion.rs:316-321 | Succeeds exactly when the prefix is a prefix of the text, and prefix plus result is the text. |
| InlineCompletion.ShownText | lapce-app/src/inline_completion.rs:278-308 | Plain text (or no format) shows the item text, a snippet shows its expansion when it parses, and any other format shows nothing. |
| InlineCompletion.InlineCompletionText | lapce-app/src/inline_completion.rs:270-328 | Hides the suggestion when its range start is neither the previous code boundary nor the start offset. Otherwise, with the shown text (`ShownText`): an unknown format or a snippet that does not parse hides it; an unknown line end leaves it unchanged; text typed since the start offset that is not a prefix of the shown text hides it; a remainder equal to the current completion leaves it unchanged; any other remainder is set, shifted by the typed length. |
| InlineCompletion.SetThenUnchanged | lapce-app/src/inline_completion.rs:309-327 | Once a remainder is shown, asking again with the same input leaves it unchanged. |
| InlineCompletion.TypedPrefixStripped | lapce-app/src/inline_completion.rs:270-328 | A plain suggestion extending what was typed shows exactly the rest, shifted by the typed length. |
| TerminalData.ControlCode | lapce-app/src/terminal/data.rs:561-605 | Only `@`, `a` to `z` and `[` to `_` have a control code. The code is the character's value mod 32. |
| TerminalData.ControlCodesInOrder | lapce-app/src/terminal/data.rs:561-605 | The 32 control keys give the 32 C0 codes in order. |
| TerminalData.ModValParameter | lapce-app/src/terminal/data.rs:496-526 | A modifier digit exists exactly for a non-empty combination of Shift, Alt and Ctrl, and it is `1 + shift + 2·alt + 4·ctrl`. |
| TerminalData.TermSequence | lapce-app/src/terminal/data.rs:528-558 | With no modifier, gives the bare sequence. With a Shift/Alt/Ctrl combination, gives prefix, digit and suffix. With any other modifier, gives nothing. |
| TerminalData.ResolveKeyEvent | lapce-app/src/terminal/data.rs:474-655 | A character sends its control code exactly with Ctrl alone. Backspace sends 0x08 with Ctrl, else ESC 0x7F with Alt, else 0x7F. Tab, Enter and Escape ignore modifiers. Cursor and editing keys follow `TermSequence`. |
| TerminalData.SendKeypress | lapce-app/src/terminal/data.rs:448-468 | A resolved key sends its text. An unresolved character with Alt alone sends ESC and then the character. The key counts as handled exactly when something is sent. |
| TerminalData.ReceiveChar | lapce-app/src/terminal/data.rs:303-316 | The shell gets the text exactly when the panel is in terminal mode. |
| TerminalData.AltLetterIsEscPrefixed | lapce-app/src/terminal/data.rs:448-468 | With Alt alone, a letter goes to the shell as ESC followed by the letter. |
| TerminalData.TerminalModes.constructor | lapce-app/src/terminal/data.rs:673-736 | Starts in the given mode with no selection. |
| TerminalData.VisualToggled | lapce-app/src/terminal/data.rs:673-696 | Without modal editing nothing changes. Normal enters the visual mode. The same visual mode returns to Normal; another one only switches the visual mode. Other modes stay. |
| TerminalData.TerminalModes.ToggleVisual | lapce-app/src/terminal/data.rs:673-696 | The new mode and visual mode are the transition `VisualToggled` gives for the old ones. |
| TerminalData.TerminalModes.ToggleSelection | lapce-app/src/terminal/data.rs:720-746 | A non-empty selection of the same type goes away, and a non-empty one of another type takes the new type. Otherwise a new selection starts at the point. |
| TerminalData.ToggleVisualTwice | lapce-app/src/terminal/data.rs:673-696 | Toggling the same visual mode twice from Normal comes back to Normal. |
| TerminalData.ChosenCommand | lapce-app/src/terminal/data.rs:819-840 | With a debug command, its head is the program (empty when the list is empty) and its tail the arguments (none when the tail is empty). Else the prelaunch step's program and arguments, only when asked for and present. Else the configuration's own. |
| TerminalData.Expand | lapce-app/src/terminal/data.rs:804-882 | Keeps the chosen program unless it is `${lapce}`. That is replaced by the running editor's path, and the result is an error when the path is unavailable or not valid UTF-8. |
| PtyWriteQueue.Writing.Remaining | lapce-proxy/src/terminal.rs:443-445 | The remaining bytes are the source's length minus what was written. |
| PtyWriteQueue.Writing.Finished | lapce-proxy/src/terminal.rs:448-450 | Finished exactly when nothing remains. |
| PtyWriteQueue.Writing.Advance | lapce-proxy/src/terminal.rs:438-440 | Advancing by `n` drops exactly the first `n` remaining bytes. |
| PtyWriteQueue.NewWriting | lapce-proxy/src/terminal.rs:430-435 | A new chunk has nothing written, so all of it remains. |
| PtyWriteQueue.FlattenAppend | lapce-proxy/src/terminal.rs:461-470 | The bytes of a queue of chunks concatenate over the queue. |
| PtyWriteQueue.Queued | lapce-proxy/src/terminal.rs:443-445 | What is written plus what remains is the whole chunk. |
| PtyWriteQueue.Backlog | lapce-proxy/src/terminal.rs:455-485 | The pending bytes are the current chunk's remainder followed by the queued chunks, in order. |
| PtyWriteQueue.BacklogQueue | lapce-proxy/src/terminal.rs:319-329 | Queuing more chunks appends exactly their bytes to the backlog. |
| PtyWriteQueue.State.constructor | lapce-proxy/src/terminal.rs:452-456 | Starts with an empty queue and no current chunk. |
| PtyWriteQueue.State.Pending | lapce-proxy/src/terminal.rs:455-485 | The state's pending bytes are its backlog. |
| PtyWriteQueue.State.NeedsWrite | lapce-proxy/src/terminal.rs:478-480 | No write is needed exactly when no chunk is in progress and none is queued; whenever bytes are pending a write is needed. |
| PtyWriteQueue.State.GotoNext | lapce-proxy/src/terminal.rs:468-470 | The front of the queue becomes the current chunk, or None on an empty queue. Pending is then exactly the old queue's bytes. |
| PtyWriteQueue.State.EnsureNext | lapce-proxy/src/terminal.rs:461-465 | Takes the next chunk only when none is in progress. Pending bytes are unchanged. |
| PtyWriteQueue.State.TakeCurrent | lapce-proxy/src/terminal.rs:473-475 | Hands out the current chunk and leaves none. |
| PtyWriteQueue.State.SetCurrent | lapce-proxy/src/terminal.rs:483-485 | Puts a chunk back as the current one. |
| ProxyTerminal.Terminals.constructor | lapce-proxy/src/terminal.rs:38-41 | The registry starts empty. |
| ProxyTerminal.Terminals.Insert | lapce-proxy/src/terminal.rs:44-47 | Stores the raw id and sender under the id, replacing any earlier entry. A `get` with that raw id then finds the sender. |
| ProxyTerminal.Terminals.Remove | lapce-proxy/src/terminal.rs:49-63 | Removes and returns the sender exactly when the stored raw id matches. Otherwise it returns None and the map is unchanged. |
| ProxyTerminal.Terminals.Get | lapce-proxy/src/terminal.rs:65-72 | Finds the sender exactly when the id is present with a matching raw id. |
| ProxyTerminal.Terminals.GetWithoutRaw | lapce-proxy/src/terminal.rs:74-79 | Finds the sender exactly when the id is present, whatever its raw id. |
| ProxyTerminal.Terminals.GetRefinesWithoutRaw | lapce-proxy/src/terminal.rs:65-79 | `get` finds only what `get_without_raw` finds, and whatever the latter finds, `get` finds with the right raw id. |
| ProxyTerminal.InputsBefore | lapce-proxy/src/terminal.rs:319-329 | The drained inputs are at most as many as the messages. |
| ProxyTerminal.AfterShutdown | lapce-proxy/src/terminal.rs:319-329 | Without a Shutdown nothing is left in the channel. With one, exactly what follows the first Shutdown is left. |
| ProxyTerminal.SizeAfter | lapce-proxy/src/terminal.rs:324 | The window size after draining is the old one or the size of a Resize message received. |
| ProxyTerminal.InputsBeforeAppend | lapce-proxy/src/terminal.rs:319-329 | Before a Shutdown, draining two batches queues the first batch's inputs and then the second's. |
| ProxyTerminal.InputsBeforeAll | lapce-proxy/src/terminal.rs:319-329 | With no Shutdown, exactly the channel's inputs are queued. |
| ProxyTerminal.PtyTerminal.constructor | lapce-proxy/src/terminal.rs:133-178 | Starts with the given channel, size and writer outcomes, and nothing written. |
| ProxyTerminal.PtyTerminal.DrainRecvChannel | lapce-proxy/src/terminal.rs:319-329 | Returns true exactly when no Shutdown arrived. The inputs before the first Shutdown join the queue's back in arrival order. The channel keeps what followed the Shutdown, and the size is the last Resize before it. |
| ProxyTerminal.PtyTerminal.Write | lapce-proxy/src/terminal.rs:365 | One write to the PTY consumes one scripted outcome. Only a successful write adds bytes to the output, and those are a prefix of the buffer. |
| ProxyTerminal.PtyTerminal.WriteSome | lapce-proxy/src/terminal.rs:365-376 | A write that makes progress advances the chunk by exactly the bytes that reached the output. Any other write leaves the chunk as it was. |
| ProxyTerminal.PtyTerminal.WriteOne | lapce-proxy/src/terminal.rs:364-387 | The inner loop sends a prefix of the chunk's remainder and keeps the rest. It moves on only when the chunk is finished. |
| ProxyTerminal.PtyTerminal.WriteChunk | lapce-proxy/src/terminal.rs:363-388 | One chunk's turn of the outer loop. On success the next chunk is taken from the queue. Otherwise the partial chunk is put back. Either way, the bytes sent followed by what is pending are what was pending before. |
| ProxyTerminal.PtyTerminal.PtyWrite | lapce-proxy/src/terminal.rs:360-391 | The output grows by exactly the bytes sent. Those bytes, followed by what is still pending, are what was pending before, so nothing is lost or sent twice. A success with no chunk in progress has sent everything. |

## Left out

- The invalidated-lines summary (`InvalLines`) that `apply_edit`, `edit` and `undo` return. It depends on `line_of_offset`, which is not part of this model.
- Line-ending detection and normalization in `new`, `edit`, `reload` and `init_content`. Inserted strings are used as given.
- The `atomic_rev` release store is a plain field write. Publication to other threads is not modelled.
- `EditType::breaks_undo_group` lives in a file that is not part of this model. The buffer takes it as a function fixed at construction.
- TextBuffer.Buffer.Edit: requires that the sorted replacements do not overlap and lie within the text. The rope library's delta builder asserts this; the model does not reproduce its panic.
- TextBuffer.Buffer.InitContent: requires a non-empty `content` to go into an empty buffer. `init_content` builds `Delta::simple_edit(0..0, content, 0)` (crates/doc/src/lines/buffer/mod.rs:209), a delta over a base of length 0, which only fits an empty text; it is called on a freshly created buffer.
- TextBuffer.Buffer.Undo: requires `groups` to equal `undos`. `undo` is private, and its only callers, `do_undo` and `do_redo`, call it that way after updating `undos`.
- History.ComputeUndo, TextBuffer.Buffer.ComputeUndo, TextBuffer.Buffer.Undo, TextBuffer.Buffer.DoUndo, TextBuffer.Buffer.DoRedo: the undo/redo inverse law is proved for one case only: an edit that opened a new live group, undone right after and then redone (`BufferLog.UndoAfterEdit`, `BufferLog.RedoAfterUndo`, `BufferLog.PristineAfterUndo`). It is stated over what `AddDelta` and `Undo` ensure (`EditMade`, `UndoMade`); `DoUndo` and `DoRedo` reach it through `Undo`. For an arbitrary set of groups over an arbitrary history, the model states only the backward step (walking back restores the old mask) and the no-op case. It does not say which text results. The mask `compute_undo` rebuilds depends on every revision replayed from the first candidate on. The model has no definition of the text a buffer shows for a given set of undone groups that is independent of that replay, so it has nothing general to compare the result with.
- The rope library (`Rope`, `Delta`, `Subset`, `Transformer`, `DeltaBuilder`) is not verified. Only the operations the buffer calls are stated, over sequences, in module `Subsets`.
- Indent detection, `char_at_offset` and the word-cursor Unicode handling of the buffer.
- `usize` arithmetic is modelled with unbounded integers. Underflow panics in `visual_line`, `actual_line` and `folded_line_count` are not modelled.
- EditorData.RoundTrip: proved only for tiled change lists (each side's ranges follow each other without gaps or folded parts) and with bottom affinity.
- EditorData.EditorSnippet.AddPlaceholders: the source panics on an empty placeholder list while a snippet is active. The `Usable` precondition excludes that state instead of modelling the panic.
- EditorData.EditorSnippet.JumpToNext: requires `Usable()` (no active snippet with an empty placeholder list). On an empty active snippet the source's `snippet_mut.len() - 1` (lapce-app/src/editor/mod.rs:922) underflows and panics; the model excludes that state instead of modelling the panic.
- `update_snippet_offset` (it uses the foreign `Transformer`) and the editor's other commands. These are grouped as `OtherCommand` in `show_inline_completion`.
- Offsets in inline completion are character offsets, not byte offsets.
- `prev_code_boundary` and `offset_line_end` are parameters of `InlineCompletionText`, and snippet expansion is a parameter (None when the snippet does not parse).
- `apply`, `from_lsp`, `update_inline_completion` and the document side effects of `update_doc` in inline completion.
- The alacritty selection's emptiness is a field of the selection, since the terminal grid is not modelled.
- The part of `toggle_visual` after the mode change: entering vi mode, and `include_all` on the selection.
- In `expand`, the working directory (`Url::from_file_path`) and environment variables are carried without interpretation. `std::env::current_exe` is a parameter.
- `wheel_scroll`, vi motions, scrolling, clipboard and bracketed paste in the terminal panel, and process spawning.
- The `DiffLines` producer (the diff computation itself) is not part of this model. `PeekDiff` is modelled as a list with a read position.
- `fold_by_offset`, `to_display_items`, `phantom_text` and `into_phantom_text` in folding: rendering with colours, float positions and buffer offsets.
- The `FoldingRangesLine` cursor in folding (crates/doc/src/lines/fold_new.rs:18-20, 104-264). Its `get_folded_range_by_line` walks the folded ranges the same way `MergeFoldingRangesLine::get_folded_range_by_line` does, which is modelled.
- The commented-out `FoldingRanges::get_folded_range_by_line` (crates/doc/src/lines/fold_new.rs:320-341), which is not compiled.
- `get_origin_folded_line_index` in folding. Its loop mirrors `get_line_num`, which is modelled.
- `visual_line_of_y` and `paint_point` in screen lines: float geometry.
- In the proxy terminal: the polling event loop, `pty_read`, PTY creation, and environment and locale setup. `Terminals::iter` is also left out.
- ProxyTerminal.PtyTerminal.DrainRecvChannel: a resize is recorded as the new window size. Its effect on the PTY is not modelled.
- The PTY writer and the message channel are scripted fields: a list of write outcomes and a list of messages. An exhausted writer script answers WouldBlock.
- ProxyTerminal.PtyTerminal.Write: a writer reporting more bytes than it was given is clamped to the buffer's length.
- `Writing` is a value (Rust moves it out of and back into the state), so its identity is not modelled.
