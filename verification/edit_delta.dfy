/**
  How `Buffer::edit` (crates/doc/src/lines/buffer/mod.rs) turns a list of selections and
  replacement strings into one delta: every selected region becomes a `(start, end, text)`
  replacement, the replacements are sorted with the comparator written in `edit`, and a delta
  builder replaces them one after another. The builder accepts a replacement only if it starts
  at or after the end of the previous one and ends within the text.
*/
module EditDelta {
  import opened Subsets

  /** One `(region.min(), region.max(), rope)` entry of the list `edit` sorts. */
  datatype Replacement = Replacement(start: nat, end: nat, text: Rope)

  datatype Ordering = Less | Equal | Greater

  /** `Ord::cmp` on offsets. */
  function Cmp(a: nat, b: nat): (r: Ordering)
    ensures r == Less <==> a < b
    ensures r == Equal <==> a == b
  {
    if a < b then Less else if a == b then Equal else Greater
  }

  /** The closure passed to `sort_by` in `edit`: the same region is Equal; otherwise a region
      comes first exactly when it ends at or before the other starts. */
  function CompareReplacements(a: Replacement, b: Replacement): (r: Ordering)
    ensures r == Equal <==> a.start == b.start && a.end == b.end
    ensures r == Less <==> !(a.start == b.start && a.end == b.end) && a.end <= b.start
    ensures r == Greater <==> !(a.start == b.start && a.end == b.end) && b.start < a.end
  {
    if a.start == b.start && a.end == b.end then Equal
    else if a.end == b.start then Less
    else Cmp(a.end, b.start)
  }

  /** A region as `Selection` produces it: start no later than end. */
  predicate Region(a: Replacement)
  {
    a.start <= a.end
  }

  /** Two regions do not overlap (touching, or two equal empty regions, is allowed). */
  predicate Apart(a: Replacement, b: Replacement)
  {
    a.end <= b.start || b.end <= a.start
  }

  /** On regions that do not overlap the comparator is a consistent order: "less" means
      "ends before the other starts", "equal" means the same region, and swapping the
      arguments swaps "less" and "greater". */
  lemma CompareApart(a: Replacement, b: Replacement)
    requires Region(a) && Region(b) && Apart(a, b)
    ensures CompareReplacements(a, b) == Equal <==> a.start == b.start && a.end == b.end
    ensures CompareReplacements(a, b) == Less <==> !(a.start == b.start && a.end == b.end) && a.end <= b.start
    ensures CompareReplacements(a, b) == Less <==> CompareReplacements(b, a) == Greater
  {
  }

  /** On overlapping regions it is not: each of `0..5` and `3..4` compares greater than the
      other. The builder rejects overlapping regions anyway. */
  lemma CompareOverlapping()
    ensures CompareReplacements(Replacement(0, 5, []), Replacement(3, 4, [])) == Greater
    ensures CompareReplacements(Replacement(3, 4, []), Replacement(0, 5, [])) == Greater
  {
  }

  /** Stable insertion into a sorted list: after every element not greater than `x`. */
  function InsertSorted(x: Replacement, s: seq<Replacement>): (r: seq<Replacement>)
    ensures multiset(r) == multiset(s) + multiset{x}
    ensures s == [] ==> r == [x]
    ensures s != [] ==> r[0] == x || r[0] == s[0]
  {
    if s == [] then [x]
    else if CompareReplacements(x, s[0]) == Less then [x] + s
    else
      assert s == [s[0]] + s[1..];
      [s[0]] + InsertSorted(x, s[1..])
  }

  /** `sort_by` with the comparator of `edit` (a stable sort). */
  function SortReplacements(xs: seq<Replacement>): (r: seq<Replacement>)
    ensures multiset(r) == multiset(xs)
  {
    if xs == [] then []
    else
      assert xs == xs[..|xs| - 1] + [xs[|xs| - 1]];
      InsertSorted(xs[|xs| - 1], SortReplacements(xs[..|xs| - 1]))
  }

  /** What the delta builder checks, replacement by replacement: each one starts at or after
      the end of the previous one (or `pos`) and the last one ends within the text. */
  predicate Fits(reps: seq<Replacement>, pos: nat, len: nat)
    ensures Fits(reps, pos, len) ==> pos <= len && forall r :: r in reps ==> pos <= r.start <= r.end <= len
  {
    if reps == [] then pos <= len
    else pos <= reps[0].start <= reps[0].end && Fits(reps[1..], reps[0].end, len)
  }

  lemma {:induction false} FitsFrom(reps: seq<Replacement>, p: nat, q: nat, len: nat)
    requires Fits(reps, p, len)
    requires q <= (if reps == [] then len else reps[0].start)
    ensures Fits(reps, q, len)
  {
  }

  lemma {:induction false} InsertFits(x: Replacement, s: seq<Replacement>, p: nat, len: nat)
    requires Fits(s, p, len) && p <= x.start <= x.end <= len
    requires forall y :: y in s ==> Apart(x, y)
    ensures Fits(InsertSorted(x, s), p, len)
    decreases s
  {
    if s != [] {
      if CompareReplacements(x, s[0]) == Less {
        FitsFrom(s, p, x.end, len);
      } else {
        assert Apart(x, s[0]);
        assert s[0].end <= x.start;
        assert forall y :: y in s[1..] ==> y in s;
        InsertFits(x, s[1..], s[0].end, len);
      }
    }
  }

  /** The regions of an edit, pairwise apart and within the text. */
  predicate WellPlaced(xs: seq<Replacement>, len: nat)
  {
    (forall i :: 0 <= i < |xs| ==> Region(xs[i]) && xs[i].end <= len) &&
    (forall i, j :: 0 <= i < j < |xs| ==> Apart(xs[i], xs[j]))
  }

  /** Sorting regions that are apart and within the text gives what the builder accepts. */
  lemma {:induction false} SortedFits(xs: seq<Replacement>, len: nat)
    requires WellPlaced(xs, len)
    ensures Fits(SortReplacements(xs), 0, len)
    decreases |xs|
  {
    if xs != [] {
      var init, x := xs[..|xs| - 1], xs[|xs| - 1];
      assert WellPlaced(init, len) by {
        forall i, j | 0 <= i < j < |init|
          ensures Apart(init[i], init[j])
        {
          assert init[i] == xs[i] && init[j] == xs[j];
        }
      }
      SortedFits(init, len);
      var sorted := SortReplacements(init);
      forall y | y in sorted
        ensures Apart(x, y)
      {
        assert y in multiset(init);
        var i :| 0 <= i < |init| && init[i] == y;
        assert xs[i] == y && Apart(xs[i], xs[|xs| - 1]);
      }
      InsertFits(x, sorted, 0, len);
    }
  }

  /** The delta the builder produces for replacements that fit, over the text from `pos` on. */
  function BuildDelta(reps: seq<Replacement>, pos: nat, len: nat): (d: Delta)
    requires Fits(reps, pos, len)
    ensures DeltaOver(d, len - pos)
    decreases reps
  {
    if reps == [] then CopyDelta(len - pos)
    else
      var r := reps[0];
      var head := ReplacementDelta(r.start - pos, r.text, r.end - r.start);
      var rest := BuildDelta(reps[1..], r.end, len);
      CountAppend(head.inserted, rest.inserted);
      Concat(head, rest)
  }

  /** The text the replacements describe: unchanged stretches with each region replaced. */
  function Replaced(text: Rope, reps: seq<Replacement>, pos: nat): Rope
    requires Fits(reps, pos, |text|)
    decreases reps
  {
    if reps == [] then text[pos..]
    else text[pos..reps[0].start] + reps[0].text + Replaced(text, reps[1..], reps[0].end)
  }

  /** The part of the built delta for one replacement: copy up to its start, insert its
      text, delete its region. */
  function ReplacementDelta(pre: nat, text: Rope, del: nat): (d: Delta)
    ensures DeltaOver(d, pre + del)
  {
    var c := Concat(CopyDelta(pre), InsertDelta(text));
    assert DeltaOver(c, pre) by {
      CountAppend(NewSubset(pre), AllMembers(|text|));
    }
    CountAppend(c.inserted, NewSubset(del));
    Concat(c, DeleteDelta(del))
  }

  lemma ApplyReplacementDelta(t1: Rope, text: Rope, t2: Rope)
    ensures Apply(ReplacementDelta(|t1|, text, |t2|), t1 + t2) == t1 + text
  {
    var c, i, d := CopyDelta(|t1|), InsertDelta(text), DeleteDelta(|t2|);
    ApplyCopy(t1);
    ApplyInsert(text);
    ApplyDelete(t2);
    ApplyConcat(c, t1, i, []);
    assert t1 + [] == t1;
    ApplyConcat(Concat(c, i), t1, d, t2);
    assert t1 + text + [] == t1 + text;
  }

  /** Applying the built delta replaces every region with its text. */
  lemma {:induction false} ApplyBuildDelta(text: Rope, reps: seq<Replacement>, pos: nat)
    requires Fits(reps, pos, |text|)
    ensures Apply(BuildDelta(reps, pos, |text|), text[pos..]) == Replaced(text, reps, pos)
    decreases reps
  {
    if reps == [] {
      ApplyCopy(text[pos..]);
    } else {
      var r := reps[0];
      var t1, t2, t3 := text[pos..r.start], text[r.start..r.end], text[r.end..];
      assert text[pos..] == (t1 + t2) + t3;
      var head := ReplacementDelta(r.start - pos, r.text, r.end - r.start);
      var rest := BuildDelta(reps[1..], r.end, |text|);
      assert BuildDelta(reps, pos, |text|) == Concat(head, rest);
      ApplyReplacementDelta(t1, r.text, t2);
      ApplyBuildDelta(text, reps[1..], r.end);
      ApplyConcat(head, t1 + t2, rest, t3);
    }
  }

  /** The delta `edit` builds from its list of regions. */
  function EditDelta(xs: seq<Replacement>, len: nat): (d: Delta)
    requires WellPlaced(xs, len)
    ensures DeltaOver(d, len)
  {
    SortedFits(xs, len);
    BuildDelta(SortReplacements(xs), 0, len)
  }

  /** `Delta::simple_edit(start..end, s, len)`: one replacement. */
  function SimpleEdit(start: nat, end: nat, s: Rope, len: nat): (d: Delta)
    requires start <= end <= len
    ensures DeltaOver(d, len)
  {
    var reps := [Replacement(start, end, s)];
    assert Fits(reps, 0, len);
    BuildDelta(reps, 0, len)
  }

  /** The simple edit replaces its region with its string. */
  lemma ApplySimpleEdit(start: nat, end: nat, s: Rope, text: Rope)
    requires start <= end <= |text|
    ensures Apply(SimpleEdit(start, end, s, |text|), text) == text[..start] + s + text[end..]
  {
    var reps := [Replacement(start, end, s)];
    assert Fits(reps, 0, |text|);
    ApplyBuildDelta(text, reps, 0);
    assert text[0..] == text && text[0..start] == text[..start];
  }
}
