/**
  Inline completion (lapce-app/src/inline_completion.rs): the list of suggestions a language
  server returned, the one shown, cycling through them, and the text shown after the cursor,
  which is the suggestion less what the user already typed since the completion started.
*/
module InlineCompletion {
  import opened Wrappers

  /** `InsertTextFormat`; an item without one is plain text. */
  datatype InsertTextFormat = PlainText | SnippetText | OtherFormat

  /** A suggestion: its text, the buffer range `start..end` it replaces, if given, and its
      format. The filter text and the command it carries are not used here. */
  datatype InlineCompletionItem = InlineCompletionItem(
    insertText: string,
    range: Option<(nat, nat)>,
    insertTextFormat: Option<InsertTextFormat>)

  datatype InlineCompletionStatus = Inactive | Started | Active

  /** The doc update `update_doc` makes: clear the inline text, or show a text at an offset. */
  datatype DocUpdate = ClearInline | ShowInline(text: string, offset: nat)

  /** The suggestion after `active` in a list of `n`, wrapping round. */
  function NextIndex(active: nat, n: nat): (r: nat)
    requires n > 0
    ensures r < n
  {
    (active + 1) % n
  }

  /** The suggestion before `active` in a list of `n`: the last one before the first. */
  function PrevIndex(active: nat, n: nat): (r: nat)
    requires n > 0
    ensures active < n ==> r < n
    ensures active > 0 ==> r + 1 == active
  {
    if active == 0 then n - 1 else active - 1
  }

  /** `previous` undoes `next` and `next` undoes `previous`, for an index in the list. */
  lemma CycleInverse(active: nat, n: nat)
    requires active < n
    ensures PrevIndex(NextIndex(active, n), n) == active
    ensures NextIndex(PrevIndex(active, n), n) == active
  {
    if active + 1 < n {
      SmallMod(active + 1, n);
    } else {
      assert (active + 1) % n == n % n == 0;
    }
    if active == 0 {
      assert n % n == 0;
    } else {
      SmallMod(active, n);
    }
  }

  /** The index `k` calls of `next` reach. */
  function NextTimes(active: nat, n: nat, k: nat): nat
    requires n > 0
  {
    if k == 0 then active else NextIndex(NextTimes(active, n, k - 1), n)
  }

  /** Below the end of the list, `k` calls of `next` move `k` places down. */
  lemma {:induction false} NextTimesClimb(active: nat, n: nat, k: nat)
    requires active + k < n
    ensures NextTimes(active, n, k) == active + k
  {
    if k > 0 {
      NextTimesClimb(active, n, k - 1);
      SmallMod(active + k, n);
    }
  }

  lemma SmallMod(x: nat, n: nat)
    requires x < n
    ensures x % n == x
  {
  }

  /** `a + b` calls of `next` are `a` calls followed by `b` calls. */
  lemma {:induction false} NextTimesCompose(active: nat, n: nat, a: nat, b: nat)
    requires n > 0
    ensures NextTimes(active, n, a + b) == NextTimes(NextTimes(active, n, a), n, b)
  {
    if b > 0 {
      NextTimesCompose(active, n, a, b - 1);
    }
  }

  /** From any suggestion, `n` calls of `next` on a list of `n` come back to it, having passed
      through every other one. */
  lemma NextTimesRound(active: nat, n: nat)
    requires active < n
    ensures NextTimes(active, n, n) == active
    ensures forall k :: 0 < k < n ==> NextTimes(active, n, k) != active
  {
    var toLast := n - 1 - active;
    NextTimesClimb(active, n, toLast);
    assert NextTimes(active, n, toLast + 1) == 0 by {
      assert n % n == 0;
    }
    NextTimesClimb(0, n, active);
    NextTimesCompose(active, n, toLast + 1, active);
    forall k | 0 < k < n
      ensures NextTimes(active, n, k) != active
    {
      if k <= toLast {
        NextTimesClimb(active, n, k);
      } else {
        NextTimesCompose(active, n, toLast + 1, k - toLast - 1);
        NextTimesClimb(0, n, k - toLast - 1);
      }
    }
  }

  class InlineCompletionData {
    var status: InlineCompletionStatus
    var active: nat
    var items: seq<InlineCompletionItem>
    var startOffset: nat
    var path: string

    /** `InlineCompletionData::new`: inactive, with no suggestions. */
    constructor ()
      ensures status == Inactive && active == 0 && items == [] && startOffset == 0 && path == ""
    {
      status := Inactive;
      active := 0;
      items := [];
      startOffset := 0;
      path := "";
    }

    /** The shown suggestion points into the list, or the list is empty. */
    predicate ActiveInRange()
      reads this
    {
      items == [] || active < |items|
    }

    /** `current_item`: the suggestion at `active`, none when `active` is past the list. */
    function CurrentItem(): (r: Option<InlineCompletionItem>)
      reads this
      ensures r.Some? <==> active < |items|
      ensures r.Some? ==> r.value == items[active]
    {
      if active < |items| then Some(items[active]) else None
    }

    /** `next`: show the following suggestion, wrapping round; nothing to do on an empty list. */
    method Next()
      modifies this`active
      ensures items != [] ==> active == NextIndex(old(active), |items|)
      ensures items == [] ==> active == old(active)
      ensures ActiveInRange()
    {
      if items != [] {
        var nextIndex := (active + 1) % |items|;
        active := nextIndex;
      }
    }

    /** `previous`: show the preceding suggestion, the last one before the first. */
    method Previous()
      modifies this`active
      ensures items != [] ==> active == PrevIndex(old(active), |items|)
      ensures items == [] ==> active == old(active)
      ensures old(ActiveInRange()) ==> ActiveInRange()
    {
      if items != [] {
        var prevIndex := if active == 0 then |items| - 1 else active - 1;
        active := prevIndex;
      }
    }

    /** `cancel`: an inactive completion stays as it is; otherwise the suggestions go and the
        completion becomes inactive. */
    method Cancel()
      modifies this`items, this`status
      ensures old(status) == Inactive ==> items == old(items) && status == Inactive
      ensures old(status) != Inactive ==> items == [] && status == Inactive
    {
      if status == Inactive {
        return;
      }
      items := [];
      status := Inactive;
    }

    /** `set_items`: a new list from the server, shown from its first suggestion. */
    method SetItems(newItems: seq<InlineCompletionItem>, newStartOffset: nat, newPath: string)
      modifies this`items, this`active, this`status, this`startOffset, this`path
      ensures items == newItems && active == 0 && status == Active
      ensures startOffset == newStartOffset && path == newPath
      ensures ActiveInRange()
    {
      items := newItems;
      active := 0;
      status := Active;
      startOffset := newStartOffset;
      path := newPath;
    }

    /** `update_doc`: with an active, non-empty list, show the current suggestion at the start
        of its range (or at `offset`), going back to the first suggestion when `active` is past
        the list; otherwise clear the inline text. */
    method UpdateDoc(offset: nat) returns (u: DocUpdate)
      modifies this`active
      ensures status != Active || items == [] ==> u == ClearInline && active == old(active)
      ensures status == Active && items != [] ==>
        && active == (if old(active) >= |items| then 0 else old(active))
        && u == ShowInline(items[active].insertText,
                           if items[active].range.Some? then items[active].range.value.0 else offset)
      ensures status == Active ==> ActiveInRange()
    {
      if status != Active {
        return ClearInline;
      }
      if items == [] {
        return ClearInline;
      }
      var current := active;
      if current >= |items| {
        active := 0;
        current := 0;
      }
      var item := items[current];
      var at := if item.range.Some? then item.range.value.0 else offset;
      u := ShowInline(item.insertText, at);
    }
  }

  /** `str::strip_prefix`. */
  function StripPrefix(s: string, prefix: string): (r: Option<string>)
    ensures r.Some? <==> prefix <= s
    ensures r.Some? ==> prefix + r.value == s
  {
    if prefix <= s then
      assert prefix + s[|prefix|..] == s;
      Some(s[|prefix|..])
    else None
  }

  datatype ICompletionRes = Hide | Unchanged | Set(text: string, shift: nat)

  /** The text a suggestion shows once expanded: its own text when plain (or without a format),
      the snippet's text when it is a snippet that parses, and nothing for any other format. */
  function ShownText(item: InlineCompletionItem, snippetText: Option<string>): (r: Option<string>)
    ensures item.insertTextFormat.None? || item.insertTextFormat == Some(PlainText) ==> r == Some(item.insertText)
    ensures item.insertTextFormat == Some(SnippetText) ==> r == snippetText
    ensures item.insertTextFormat == Some(OtherFormat) ==> r.None?
  {
    match item.insertTextFormat
    case None => Some(item.insertText)
    case Some(PlainText) => Some(item.insertText)
    case Some(SnippetText) => snippetText
    case Some(OtherFormat) => None
  }

  /** `inline_completion_text`: the text to show after the cursor.

      `cursorPrevOffset` is the code boundary before the cursor, `lineEnd` the end of the line
      of `startOffset` (None when the buffer cannot say), and `snippetText` the text a snippet
      suggestion expands to (None when it does not parse). */
  function InlineCompletionText(text: string, startOffset: nat, cursorPrevOffset: nat, item: InlineCompletionItem,
                                currentCompletion: Option<string>, lineEnd: Option<nat>,
                                snippetText: Option<string>): (r: ICompletionRes)
    requires lineEnd.Some? ==> startOffset <= lineEnd.value <= |text|
    ensures item.range.Some? && cursorPrevOffset != item.range.value.0 && startOffset != item.range.value.0
      ==> r == Hide
    ensures item.insertTextFormat == Some(OtherFormat) ==> r == Hide
    ensures r.Set? ==>
      && lineEnd.Some?
      && r.shift == lineEnd.value - startOffset
      && (if item.insertTextFormat == Some(SnippetText)
          then snippetText.Some? && text[startOffset..lineEnd.value] + r.text == snippetText.value
          else text[startOffset..lineEnd.value] + r.text == item.insertText)
      && currentCompletion != Some(r.text)
    ensures r.Unchanged? ==> lineEnd.None? || currentCompletion.Some?
    ensures !(item.range.Some? && cursorPrevOffset != item.range.value.0 && startOffset != item.range.value.0) ==>
      match ShownText(item, snippetText)
      case None => r == Hide
      case Some(full) =>
        match lineEnd
        case None => r == Unchanged
        case Some(end) =>
          var prefix := text[startOffset..end];
          if !(prefix <= full) then r == Hide
          else if currentCompletion == Some(full[|prefix|..]) then r == Unchanged
          else r == Set(full[|prefix|..], end - startOffset)
  {
    if item.range.Some? && cursorPrevOffset != item.range.value.0 && startOffset != item.range.value.0 then Hide
    else
      var format := if item.insertTextFormat.Some? then item.insertTextFormat.value else PlainText;
      if format == OtherFormat then Hide
      else if format == SnippetText && snippetText.None? then Hide
      else
        var full := if format == SnippetText then snippetText.value else item.insertText;
        match lineEnd
        case None => Unchanged
        case Some(end) =>
          var prefix := text[startOffset..end];
          match StripPrefix(full, prefix)
          case None => Hide
          case Some(rest) =>
            if Some(rest) == currentCompletion then Unchanged
            else Set(rest, |prefix|)
  }

  /** Once a remainder is shown, asking again with the same input leaves it as it is. */
  lemma SetThenUnchanged(text: string, startOffset: nat, cursorPrevOffset: nat, item: InlineCompletionItem,
                         currentCompletion: Option<string>, lineEnd: Option<nat>, snippetText: Option<string>)
    requires lineEnd.Some? ==> startOffset <= lineEnd.value <= |text|
    requires InlineCompletionText(text, startOffset, cursorPrevOffset, item, currentCompletion, lineEnd, snippetText).Set?
    ensures var shown := InlineCompletionText(text, startOffset, cursorPrevOffset, item, currentCompletion, lineEnd, snippetText).text;
      InlineCompletionText(text, startOffset, cursorPrevOffset, item, Some(shown), lineEnd, snippetText) == Unchanged
  {
  }

  /** A plain suggestion whose text extends what was typed since the completion started shows
      exactly the rest of it. */
  lemma TypedPrefixStripped(text: string, startOffset: nat, item: InlineCompletionItem, lineEnd: nat, rest: string)
    requires startOffset <= lineEnd <= |text|
    requires item.range.None? && item.insertTextFormat.None?
    requires item.insertText == text[startOffset..lineEnd] + rest
    ensures InlineCompletionText(text, startOffset, startOffset, item, None, Some(lineEnd), None)
         == Set(rest, lineEnd - startOffset)
  {
    assert StripPrefix(item.insertText, text[startOffset..lineEnd]) == Some(rest);
  }
}
